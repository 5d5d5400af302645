# Word guesser for Wordle-like games — a Dafny model

The Python program is one class, `Guesser`. It holds a word list (the corpus) whose
words all have the same length. `find_candidates(include, exclude)` narrows the corpus
to the words consistent with what the player knows. An inclusion condition is either a
substring the word must contain or a `(letter, index)` pair the word must have at that
position. Exclusion conditions are the negations. `exclusive` keeps the words without a
repeated letter, and `random_guess` suggests one or more of those words from the last
candidate pool. When the loaded list mixes word lengths, the constructor asks for a
length until it gets one that occurs, and trims the list to it.

The model has five modules:

- `Filtering` (`filtering.dfy`): Python's `filter`, as an order-preserving `Filter` on
  sequences, with a subsequence predicate and the lemmas used by the other modules.
- `Values` (`values.dfy`): `Option`, `Result`, the exceptions the class raises, and
  `PyValue`. `PyValue` is the dynamically typed `include`/`exclude` argument (str,
  int, tuple, list, anything else), together with Python truthiness.
- `Conditions` (`conditions.dfy`): conditions (`Substring`, `Positional`) and how a
  condition tests a word, including Python's negative indices and `IndexError`. It
  also covers reading the arguments (`_find`, `do`) with their `TypeError` and
  `AssertionError` cases. `Candidates` is a declarative statement of what a call
  returns or raises; the lemmas prove what that result means.
- `WordLists` (`wordlists.dfy`): trimming to a word length (`_check_len`) and the
  distinct-letter filter (`exclusive`).
- `WordGuesser` (`guesser.dfy`): the class `Guesser`, with the fields `words` and
  `cands` (`self._cands`). Its methods update `cands` step by step, as the source
  does, and are proved against the functions above.

The Python filters are lazy: an out-of-range positional index raises `IndexError` only
when the final `list(...)` call consumes the chain, and only for a word that got past
every earlier filter. The model filters eagerly. It records, condition by condition,
whether a word still in the pool would fault, so it raises `IndexError` in exactly the
cases the lazy chain does. Malformed conditions are reported before any `IndexError`,
as in the source.

The model follows the code where the code departs from the documented design:

- `random_guess` before any `find_candidates` call, or after a call that found no
  candidates, draws from the whole corpus. `exclusive(None)` and `exclusive([])` both
  fall back to `self.words`.
- `exclusive` is idempotent as a filter (`WordLists.DistinctOnlyIdempotent`). Through
  the method it is not idempotent when its result is empty (`WordGuesser.ExclusiveTwice`).
- Reordering conditions never changes a successful result. It can change whether
  `IndexError` is raised (`Conditions.ReorderingCanExposeIndexError`).
- An empty word list makes the length prompt loop forever: no reply can be accepted.

## Model

| member | source | states |
|---|---|---|
| Filtering.Filter | wordGuesser.py:72 | the filtered pool is no longer than its input, and every word in it passes the filter |
| Filtering.FilterMembers | wordGuesser.py:72 | a word is in the filtered pool exactly when it is in the input and passes the filter |
| Filtering.FilterIsSubsequence | wordGuesser.py:72 | a filter keeps the original order: its result is a subsequence of its input |
| Filtering.FilterOfFilter | wordGuesser.py:101-102 | chaining two filters is the same as one filter by the conjunction |
| Conditions.CharAt | wordGuesser.py:66 | Python's `x[idx]` succeeds exactly for an index in [-len, len), gives a letter of the word, the letter at that position for a non-negative index, and the i-th letter from the end for the index -i |
| Conditions.Eval | wordGuesser.py:58-66 | evaluating a condition's lambda on a word raises IndexError exactly for a positional condition whose index is outside [-len, len); a positional condition can hold only for a one-character text |
| Conditions.ContainsMeansOccurs | wordGuesser.py:59 | the substring test `char in x` holds exactly when the text occurs in the word at some position |
| Conditions.ParseCondition | wordGuesser.py:58-70 | a condition is accepted exactly when it is a str (a substring test) or a (str, int) pair (a positional test with that text and index); any other tuple fails its assertion and anything else raises TypeError |
| Conditions.ParseItems | wordGuesser.py:56-70 | conditions are read in order; each str is a substring test and each (str, int) pair a positional test; reading stops at the first malformed condition, which gives AssertionError for a bad tuple and TypeError for anything else |
| Conditions.ParseArg | wordGuesser.py:92-110 | a falsy argument is skipped; a truthy argument that is not a str, tuple or list raises TypeError before any condition is read; a single str is one substring test; every test read has the argument's polarity |
| Conditions.ParseArgs | wordGuesser.py:104-110 | the call's failure is the failure of `include` if it has one, else that of `exclude`; the tests start with those of `include`, and exactly those tests are inclusions |
| Conditions.Candidates | wordGuesser.py:74-113 | with both arguments falsy the call fails its assertion; a malformed argument raises its error; a result is no longer than the corpus and every word in it passes every filter of the chain (its meaning is CandidatesMeaning) |
| Conditions.PoolAfter | wordGuesser.py:104-112 | with both arguments falsy `_cands` is untouched; otherwise it is a subsequence of the corpus, and after a successful call it equals the returned list |
| Conditions.CandidatesInSteps | wordGuesser.py:105-110 | the chain of a call is the inclusion chain on the corpus followed by the exclusion chain on what it lets through, and raises IndexError exactly when one of the two does; a malformed `include` stops the call with the tests read so far |
| Conditions.SelectSnoc | wordGuesser.py:101-102 | adding one condition to the chain filters the current pool once more, and raises IndexError when it is already raised or some word left in the pool faults on the new condition |
| Conditions.RaisesAppend | wordGuesser.py:101-112 | the chain of inclusion filters followed by exclusion filters raises exactly when the first part raises or the second part raises on what the first part lets through |
| Conditions.SelectMeaning | wordGuesser.py:57-72 | if consuming the chain raises nothing, it keeps exactly the corpus words on which every inclusion condition holds and every exclusion condition fails, in corpus order |
| Conditions.ParseArgsSplit | wordGuesser.py:104-110 | the tests of a well-formed call are the inclusion tests read from `include` followed by the exclusion tests read from `exclude`, with those polarities |
| Conditions.CandidatesMeaning | wordGuesser.py:74-113 | a successful `find_candidates` returns exactly the corpus words, in corpus order, on which every inclusion condition holds and every exclusion condition fails; the result is a subsequence of the corpus |
| Conditions.SameTestsSameSelection | wordGuesser.py:101-102 | condition lists that contain the same conditions, in any order or multiplicity, select the same words |
| Conditions.ReorderedConditionsSameResult | wordGuesser.py:93-102 | after a successful call, permuting the conditions inside the `include` and `exclude` lists gives the same result or IndexError, never a different list or another exception |
| Conditions.ReorderingCanExposeIndexError | wordGuesser.py:101-112 | the order of conditions can decide whether IndexError is raised: `[("a",0),("b",5)]` on `["xbc"]` gives `[]`, the reverse order raises |
| Conditions.SingleConditionAsList | wordGuesser.py:93-94 | a single truthy str or tuple, as `include` or `exclude`, behaves as the one-element list holding it, for the result and for the pool left behind |
| Conditions.ArgumentErrors | wordGuesser.py:61-110 | no truthy argument fails the assertion; a truthy `include` that is not a str, tuple or list raises TypeError, and so does such an `exclude` when `include` reads cleanly; an `include` tuple that is not a (str, int) pair fails its assertion, and so does such an `exclude` tuple when `include` reads cleanly |
| Conditions.FirstBadIncludeFails | wordGuesser.py:61-102 | the first malformed condition in an `include` list decides the exception, whatever follows it and whatever `exclude` holds |
| Conditions.UniformCorpusNeverRaises | wordGuesser.py:66 | on a corpus of words of length n, positional indices in [-n, n) never raise, so a well-formed call succeeds |
| WordLists.FirstAccepted | wordGuesser.py:40-52 | the length the prompt loop settles on is one present in the list, given by the first accepted reply, with no reply before it accepted |
| WordLists.OfLength | wordGuesser.py:49 | the trimmed list has only words of the chosen length and is no longer than the original |
| WordLists.Settle | wordGuesser.py:33-52 | with one length present the list is left as it is; in every case the corpus is the original list trimmed to one of its lengths |
| WordLists.OfLengthMeaning | wordGuesser.py:49 | trimming keeps, in order, exactly the words of the chosen length; for a length that occurs the result is non-empty and has that single length |
| WordLists.SingleLengthUntouched | wordGuesser.py:34-36 | when all words share one length the list is non-empty and trimming to that length would leave it unchanged |
| WordLists.SettleMeaning | wordGuesser.py:33-52 | after `_check_len` the corpus is non-empty, is an order-preserving selection of the loaded list, and all its words have one of the original lengths |
| WordLists.DistinctCharsMeansNoRepeats | wordGuesser.py:118 | `len(x) == len(set(x))` holds exactly when no letter of the word repeats |
| WordLists.DistinctOnly | wordGuesser.py:118 | the size test `len(x) == len(set(x))` keeps the same words, with the same multiplicity and order, as filtering by pairwise distinct letters |
| WordLists.DistinctOnlyMeaning | wordGuesser.py:118 | the distinct-letter filter is the filter by pairwise distinct letters: it keeps, in order and with their multiplicity, exactly the words with no repeated letter |
| WordLists.DistinctOnlyIdempotent | wordGuesser.py:118 | applying the distinct-letter filter twice equals applying it once |
| WordGuesser.Guesser.constructor | wordGuesser.py:14-27 | the new guesser holds the settled corpus (non-empty, one word length) and no candidate pool yet |
| WordGuesser.Guesser.CheckLen | wordGuesser.py:33-54 | with one length present the list is unchanged; otherwise replies are read until one names a present length, and the list is trimmed to it |
| WordGuesser.Guesser.ApplyConditions | wordGuesser.py:92-102 | reading one argument and chaining its filters leaves as pool the words passing all its conditions, reports its first malformed condition, and reports whether consuming the chain would raise IndexError |
| WordGuesser.Guesser.RunChain | wordGuesser.py:105-110 | restarting the pool from the corpus and chaining the filters of `include` and then `exclude` leaves as pool the words passing every filter of the call, reports the call's first malformed condition, and whether consuming the chain would raise IndexError |
| WordGuesser.Guesser.FindCandidates | wordGuesser.py:74-113 | the call returns or raises exactly what `Candidates` states, restarting from the full corpus; the corpus is unchanged; on success the pool equals the returned list |
| WordGuesser.Guesser.Call | wordGuesser.py:131-132 | calling the guesser is `find_candidates` |
| WordGuesser.Guesser.Exclusive | wordGuesser.py:115-118 | the result is the argument filtered by pairwise distinct letters (order and repeated entries kept); a None or empty argument uses the corpus instead |
| WordGuesser.Guesser.RandomGuess | wordGuesser.py:120-129 | the pool is `exclusive(_cands)`; one guess is a word of the pool and an empty pool raises ValueError; a request larger than the pool returns the whole pool; a negative request raises ValueError; otherwise exactly the requested number of words is drawn without replacement; every suggested word is a corpus word with no repeated letter |
| WordGuesser.Sample | wordGuesser.py:123-129 | `random.sample(pool, k)` succeeds exactly when 0 <= k <= len(pool), else raises ValueError; it returns k words of the pool drawn without replacement |
| WordGuesser.PoolFromCorpus | wordGuesser.py:115-121 | every word of the pool `random_guess` draws from is a corpus word with no repeated letter |
| WordGuesser.CandidatesIgnorePool | wordGuesser.py:104-113 | a successful call's result does not depend on the previous pool, becomes the new pool, and is no longer than the corpus |
| WordGuesser.ExclusiveTwice | wordGuesser.py:115-118 | `exclusive` of its own non-empty result gives that result again; of an empty result it gives the distinct-letter words of the whole corpus |

## Left out

- Reading the word file (`_get_words`, the `exists` check, wordGuesser.py:21-31) is file I/O. The constructor takes the word list already loaded, either the explicit list or the file's lines. An empty explicit list makes the source read the file instead; that choice happens before the model starts.
- The `isinstance` checks on an explicit word list (wordGuesser.py:16-18) are enforced by Dafny's types.
- The prompt loop's `print` and `input` calls are console I/O, and `int()` parsing is left out. Replies are given as a sequence, with None for a reply that is not an integer. The constructor requires that the loop ends, which in the source needs a uniform list or an accepted reply.
- The randomness of `random.sample` is not modelled. The model chooses nondeterministically any words that satisfy the count, membership and without-replacement facts; the distribution is not modelled.
- WordGuesser.Guesser.FindCandidates: after a call that raises once filters are chained, the source leaves a partly built one-shot filter iterator in `_cands`. The model keeps the list those filters would yield (`PoolAfter`). A later `random_guess`, which in the source would read that iterator once (and then find it exhausted, or raise again), is modelled on that list. A filter iterator is always truthy, so `exclusive` (wordGuesser.py:116) never falls back to the corpus for it: when the leftover chain yields no word, the source's `random_guess(1)` raises ValueError, while the model draws a word from the corpus.
- WordGuesser.Guesser.FindCandidates: the source returns the very list it stores as `self._cands` (wordGuesser.py:112-113), so a caller that mutates the returned list changes what `random_guess` draws from. The model returns a value; this aliasing is not modelled.
- WordGuesser.Guesser.constructor: the source stores the caller's list itself as `self.words` (wordGuesser.py:19), and `_check_len` does not copy it when the lengths are uniform, so a later mutation by the caller changes the corpus. The model takes the list as a value; this aliasing is not modelled.
- WordGuesser.Guesser.RandomGuess: a non-integer `out_num` is outside the model.
- Python `bool` values are `int`s, so a `(str, True)` tuple counts as a positional condition with index 1. The model has no separate booleans; such a value is a `PyInt`. Subclasses of `str`, `tuple` and `list` are treated as those types.
