/**
 * Negative examples: a selected sentence is corrupted by deleting one or two of its
 * words, or by exchanging two of its interior words. The random draws are parameters.
 */
module Negatives {
  import opened Results
  import opened Strings
  import opened Selection

  /** `capitalize` never puts a space into a word, so a capitalised word stays one word. */
  ghost predicate CapitalizeKeepsWords(ops: CaseOps) {
    forall w :: ' ' !in w ==> ' ' !in ops.capitalize(w)
  }

  /** No word of the list holds a space. */
  predicate SpaceFree(ws: seq<string>) {
    forall k :: 0 <= k < |ws| ==> ' ' !in ws[k]
  }

  /** The words of a text hold no space. */
  lemma WordsLackSpace(example: string)
    ensures SpaceFree(Words(example))
  {
    SplitPiecesLackChar(example, ' ');
  }

  /** Joining space-free words with spaces and reading the result back as words gives
      the words again. */
  lemma JoinedWords(ws: seq<string>)
    requires |ws| >= 1 && SpaceFree(ws)
    ensures Words(Join(ws, " ")) == ws
  {
    JoinSplit(ws, ' ');
  }

  /** Appending `.` to a text adds it to its last word. */
  lemma DottedWords(text: string)
    ensures var ws := Words(text);
      Words(text + ".") == ws[..|ws| - 1] + [ws[|ws| - 1] + "."]
  {
    SplitAppend(text, '.', ' ');
    assert text + "." == text + ['.'];
  }

  /** The same with a `.` appended: it ends up on the last word. */
  lemma JoinedWordsDotted(ws: seq<string>)
    requires |ws| >= 1 && SpaceFree(ws)
    ensures Words(Join(ws, " ") + ".") == ws[..|ws| - 1] + [ws[|ws| - 1] + "."]
  {
    JoinedWords(ws);
    DottedWords(Join(ws, " "));
  }

  // ---------------------------------------------------------------------------
  // remove_random_words

  /** The draws of `remove_random_words` for `n` words: `idx1` from `randint(0, n - 1)`
      and, when there are more than three words, `idx2` from `randint(0, n - 2)`. */
  predicate RemoveDrawsFit(n: int, idx1: int, idx2: int) {
    0 <= idx1 < n && (n > 3 ==> 0 <= idx2 < n - 1)
  }

  /** The input positions `(lo, hi)` of the deleted words. One word goes from a text of
      at most three words (`lo == hi`), two otherwise. `idx2` counts in the list the first
      deletion has already shortened. */
  function RemovedPositions(n: int, idx1: int, idx2: int): (p: (int, int))
    requires RemoveDrawsFit(n, idx1, idx2)
    ensures 0 <= p.0 <= p.1 < n
    ensures p.0 == p.1 <==> n <= 3
    ensures idx1 == p.0 || idx1 == p.1
    ensures p.0 == 0 <==> (idx1 == 0 || (n > 3 && idx2 == 0))
    ensures p.1 == n - 1 <==> (idx1 == n - 1 || (n > 3 && idx2 == n - 2))
  {
    if n <= 3 then (idx1, idx1)
    else if idx2 < idx1 then (idx2, idx1)
    else (idx1, idx2 + 1)
  }

  /** The words other than those at positions `lo` and `hi`, in their order. */
  function Survivors(ws: seq<string>, lo: int, hi: int): seq<string>
    requires 0 <= lo <= hi < |ws|
  {
    if lo == hi then ws[..lo] + ws[lo + 1..] else ws[..lo] + ws[lo + 1..hi] + ws[hi + 1..]
  }

  /** The input position of survivor `k`. */
  function Origin(k: int, lo: int, hi: int): int {
    if k < lo then k else if lo < hi && k + 1 >= hi then k + 2 else k + 1
  }

  /** The survivors are an in-order subsequence of the input that skips exactly the
      deleted positions: one word fewer when `lo == hi`, two fewer otherwise. */
  lemma SurvivorsInOrder(ws: seq<string>, lo: int, hi: int)
    requires 0 <= lo <= hi < |ws|
    ensures |Survivors(ws, lo, hi)| == |ws| - (if lo == hi then 1 else 2)
    ensures forall k :: 0 <= k < |Survivors(ws, lo, hi)| ==>
      0 <= Origin(k, lo, hi) < |ws| && Origin(k, lo, hi) != lo && Origin(k, lo, hi) != hi &&
      Survivors(ws, lo, hi)[k] == ws[Origin(k, lo, hi)]
    ensures forall k, m :: 0 <= k < m < |Survivors(ws, lo, hi)| ==> Origin(k, lo, hi) < Origin(m, lo, hi)
  {
    var s := Survivors(ws, lo, hi);
    forall k | 0 <= k < |s| ensures s[k] == ws[Origin(k, lo, hi)] {
      if lo == hi {
        if k >= lo { assert s[k] == ws[lo + 1..][k - lo]; }
      } else if k >= lo {
        if k + 1 < hi {
          assert s[k] == ws[lo + 1..hi][k - lo];
        } else {
          assert s[k] == ws[hi + 1..][k - lo - (hi - lo - 1)];
        }
      }
    }
  }

  /** What `remove_random_words` returns, in terms of the input positions it deletes:
      the survivors joined by spaces, the first capitalised when the first input word was
      deleted, and a `.` appended when the last input word was deleted. Deleting the only
      word leaves nothing to capitalise, and indexing the empty list raises `IndexError`. */
  function RemovedWords(example: string, idx1: int, idx2: int, ops: CaseOps): (r: Result<string>)
    requires RemoveDrawsFit(|Words(example)|, idx1, idx2)
    ensures r.Failure? <==> |Words(example)| == 1
    ensures r.Failure? ==> r.error == IndexError
  {
    var ws := Words(example);
    var (lo, hi) := RemovedPositions(|ws|, idx1, idx2);
    var kept := Survivors(ws, lo, hi);
    if kept == [] then Failure(IndexError)
    else
      var capped := if lo == 0 then kept[0 := ops.capitalize(kept[0])] else kept;
      var joined := Join(capped, " ");
      Success(if hi == |ws| - 1 then joined + "." else joined)
  }

  /** A second deletion before the first: the input words at `idx2` and `idx1` go. */
  lemma DeleteEarlier(ws: seq<string>, idx1: int, idx2: int)
    requires 0 <= idx2 < idx1 < |ws|
    ensures var once := ws[..idx1] + ws[idx1 + 1..];
      once[..idx2] + once[idx2 + 1..] == ws[..idx2] + ws[idx2 + 1..idx1] + ws[idx1 + 1..]
  {
    var once := ws[..idx1] + ws[idx1 + 1..];
    assert once[..idx2] == ws[..idx2];
    assert once[idx2 + 1..] == ws[idx2 + 1..idx1] + ws[idx1 + 1..];
  }

  /** A second deletion at or after the first: the input words at `idx1` and `idx2 + 1` go. */
  lemma DeleteLater(ws: seq<string>, idx1: int, idx2: int)
    requires 0 <= idx1 <= idx2 < |ws| - 1
    ensures var once := ws[..idx1] + ws[idx1 + 1..];
      once[..idx2] + once[idx2 + 1..] == ws[..idx1] + ws[idx1 + 1..idx2 + 1] + ws[idx2 + 2..]
  {
    var once := ws[..idx1] + ws[idx1 + 1..];
    assert once[..idx2] == ws[..idx1] + ws[idx1 + 1..idx2 + 1];
    assert once[idx2 + 1..] == ws[idx2 + 2..];
  }

  /** The two deletions of `remove_random_words`, in the code's order, leave exactly the
      survivors of the deleted input positions. */
  lemma DeletionsLeaveSurvivors(ws: seq<string>, idx1: int, idx2: int)
    requires RemoveDrawsFit(|ws|, idx1, idx2)
    ensures var once := ws[..idx1] + ws[idx1 + 1..];
      var p := RemovedPositions(|ws|, idx1, idx2);
      (if |ws| > 3 then once[..idx2] + once[idx2 + 1..] else once) == Survivors(ws, p.0, p.1)
  {
    var once := ws[..idx1] + ws[idx1 + 1..];
    var p := RemovedPositions(|ws|, idx1, idx2);
    if |ws| <= 3 {
      assert p == (idx1, idx1);
      assert once == Survivors(ws, idx1, idx1);
    } else if idx2 < idx1 {
      DeleteEarlier(ws, idx1, idx2);
      assert p == (idx2, idx1);
      assert once[..idx2] + once[idx2 + 1..] == Survivors(ws, idx2, idx1);
    } else {
      DeleteLater(ws, idx1, idx2);
      assert p == (idx1, idx2 + 1);
      assert once[..idx2] + once[idx2 + 1..] == Survivors(ws, idx1, idx2 + 1);
    }
  }

  /** `remove_random_words`: delete the word at `idx1`, then, for more than three words,
      the word at `idx2` of what is left; capitalise the new first word when either index
      was 0; append `.` when either deletion took the last word. */
  method RemoveRandomWords(example: string, idx1: int, idx2: int, ops: CaseOps) returns (r: Result<string>)
    requires RemoveDrawsFit(|Words(example)|, idx1, idx2)
    ensures r == RemovedWords(example, idx1, idx2, ops)
  {
    var words := Words(example);
    var numWords := |words|;
    ghost var p := RemovedPositions(numWords, idx1, idx2);
    DeletionsLeaveSurvivors(words, idx1, idx2);
    words := words[..idx1] + words[idx1 + 1..];
    if numWords > 3 {
      words := words[..idx2] + words[idx2 + 1..];
    }
    assert words == Survivors(Words(example), p.0, p.1);
    if idx1 == 0 || (numWords > 3 && idx2 == 0) {
      if words == [] {
        return Failure(IndexError);
      }
      words := words[0 := ops.capitalize(words[0])];
    }
    if numWords - 1 == idx1 || (numWords > 3 && numWords - 2 == idx2) {
      r := Success(Join(words, " ") + ".");
    } else {
      r := Success(Join(words, " "));
    }
  }

  /** Read back as words, the corrupted text has one word fewer than the input when the
      input had at most three, two fewer otherwise. Each of its words is an input word,
      in input order, skipping the deleted ones; the first is capitalised when the first
      input word was deleted, and the last carries an appended `.` when the last input
      word was deleted. */
  lemma RemovedWordsWords(example: string, idx1: int, idx2: int, ops: CaseOps)
    requires RemoveDrawsFit(|Words(example)|, idx1, idx2)
    requires |Words(example)| >= 2 && CapitalizeKeepsWords(ops)
    ensures var ws := Words(example);
      var p := RemovedPositions(|ws|, idx1, idx2);
      var out := Words(RemovedWords(example, idx1, idx2, ops).value);
      && |out| == |ws| - (if |ws| <= 3 then 1 else 2)
      && forall k :: 0 <= k < |out| ==>
           out[k] == (if k == 0 && p.0 == 0 then ops.capitalize(ws[Origin(k, p.0, p.1)]) else ws[Origin(k, p.0, p.1)])
                     + (if k == |out| - 1 && p.1 == |ws| - 1 then "." else "")
  {
    var ws := Words(example);
    var p := RemovedPositions(|ws|, idx1, idx2);
    var kept := Survivors(ws, p.0, p.1);
    SurvivorsInOrder(ws, p.0, p.1);
    WordsLackSpace(example);
    assert SpaceFree(kept);
    FinishedWords(kept, p.0 == 0, p.1 == |ws| - 1, ops);
  }

  /** The words of space-free `kept` after the finishing touches of `remove_random_words`:
      the first word capitalised when `first`, a `.` on the last when `dot`. */
  lemma FinishedWords(kept: seq<string>, first: bool, dot: bool, ops: CaseOps)
    requires |kept| >= 1 && CapitalizeKeepsWords(ops)
    requires SpaceFree(kept)
    ensures var capped := if first then kept[0 := ops.capitalize(kept[0])] else kept;
      var out := Words(if dot then Join(capped, " ") + "." else Join(capped, " "));
      && |out| == |kept|
      && forall k :: 0 <= k < |out| ==>
           out[k] == (if k == 0 && first then ops.capitalize(kept[k]) else kept[k])
                     + (if k == |out| - 1 && dot then "." else "")
  {
    var capped := if first then kept[0 := ops.capitalize(kept[0])] else kept;
    forall k | 0 <= k < |capped| ensures ' ' !in capped[k] {
      assert capped[k] == kept[k] || (k == 0 && capped[k] == ops.capitalize(kept[0]));
    }
    if dot {
      JoinedWordsDotted(capped);
    } else {
      JoinedWords(capped);
    }
  }

  /** Deletion can leave nothing: `split(" ")` makes an empty word of a trailing space,
      so deleting the first word of `"a "` leaves the empty string. */
  lemma RemovalCanEmpty(ops: CaseOps)
    requires ops.capitalize("") == ""
    ensures RemovedWords("a ", 0, 0, ops) == Success("")
  {
    assert Words("a ") == ["a", ""] by {
      SplitAfterWord("a", "", ' ');
      assert "a" + [' '] + "" == "a ";
    }
  }

  // ---------------------------------------------------------------------------
  // swap_random_words

  /** The draw pairs of the resampling loop for `n` words all come from
      `randint(1, n - 2)`, and some pair is distinct, so the loop stops. */
  predicate SwapDrawsFit(n: int, swaps: seq<(int, int)>) {
    && (forall t :: 0 <= t < |swaps| ==> 1 <= swaps[t].0 <= n - 2 && 1 <= swaps[t].1 <= n - 2)
    && (exists t :: 0 <= t < |swaps| && swaps[t].0 != swaps[t].1)
  }

  /** The index of the first distinct pair: the draw the loop stops at. */
  function FirstDistinct(swaps: seq<(int, int)>): (t: nat)
    requires exists t :: 0 <= t < |swaps| && swaps[t].0 != swaps[t].1
    ensures t < |swaps| && swaps[t].0 != swaps[t].1
    ensures forall u :: 0 <= u < t ==> swaps[u].0 == swaps[u].1
    decreases |swaps|
  {
    if swaps[0].0 != swaps[0].1 then 0
    else
      var rest := swaps[1..];
      assert exists t :: 0 <= t < |rest| && rest[t].0 != rest[t].1 by {
        var t :| 0 <= t < |swaps| && swaps[t].0 != swaps[t].1;
        assert rest[t - 1] == swaps[t];
      }
      1 + FirstDistinct(rest)
  }

  /** Two distinct draws from `randint(1, n - 2)` need at least four words. */
  lemma SwapNeedsFourWords(n: int, swaps: seq<(int, int)>)
    requires SwapDrawsFit(n, swaps)
    ensures n >= 4
  {
    var t := FirstDistinct(swaps);
    assert 1 <= swaps[t].0 <= n - 2 && 1 <= swaps[t].1 <= n - 2;
  }

  /** The list with the words at positions `i` and `j` exchanged. */
  function Swapped(ws: seq<string>, i: int, j: int): (r: seq<string>)
    requires 0 <= i < |ws| && 0 <= j < |ws|
    ensures |r| == |ws|
  {
    seq(|ws|, k requires 0 <= k < |ws| => if k == i then ws[j] else if k == j then ws[i] else ws[k])
  }

  /** What `swap_random_words` returns: the words with the first distinct draw pair
      exchanged, joined by spaces. */
  function SwappedText(example: string, swaps: seq<(int, int)>): string
    requires SwapDrawsFit(|Words(example)|, swaps)
  {
    var t := FirstDistinct(swaps);
    Join(Swapped(Words(example), swaps[t].0, swaps[t].1), " ")
  }

  /** `swap_random_words`: draw index pairs until they differ, then exchange the two
      words in place. */
  method SwapRandomWords(example: string, swaps: seq<(int, int)>) returns (r: string)
    requires SwapDrawsFit(|Words(example)|, swaps)
    ensures r == SwappedText(example, swaps)
  {
    var words := Words(example);
    var idx1, idx2 := 0, 0;
    var t := 0;
    while idx1 == idx2
      invariant 0 <= t <= FirstDistinct(swaps) + 1
      invariant t <= FirstDistinct(swaps) ==> idx1 == idx2
      invariant 0 < t ==> idx1 == swaps[t - 1].0 && idx2 == swaps[t - 1].1
      decreases FirstDistinct(swaps) + 1 - t
    {
      idx1, idx2 := swaps[t].0, swaps[t].1;
      t := t + 1;
    }
    var temp := words[idx1];
    words := words[idx1 := words[idx2]];
    words := words[idx2 := temp];
    assert words == Swapped(Words(example), idx1, idx2);
    r := Join(words, " ");
  }

  /** Exchanging two distinct interior positions keeps the length, the multiset of words
      and the first and last words, and changes nothing but those two positions. */
  lemma SwappedExchangesTwo(ws: seq<string>, i: int, j: int)
    requires 1 <= i < |ws| - 1 && 1 <= j < |ws| - 1 && i != j
    ensures var r := Swapped(ws, i, j);
      && multiset(r) == multiset(ws)
      && r[0] == ws[0] && r[|ws| - 1] == ws[|ws| - 1]
      && r[i] == ws[j] && r[j] == ws[i]
      && forall k :: 0 <= k < |ws| && k != i && k != j ==> r[k] == ws[k]
  {
    var r := Swapped(ws, i, j);
    assert r == ws[i := ws[j]][j := ws[i]];
  }

  /** Exchanging two words of a space-free list and joining with spaces: read back as
      words, that is the exchanged list. */
  lemma SwappedJoinedWords(ws: seq<string>, i: int, j: int)
    requires 0 <= i < |ws| && 0 <= j < |ws|
    requires SpaceFree(ws)
    ensures Words(Join(Swapped(ws, i, j), " ")) == Swapped(ws, i, j)
  {
    var sw := Swapped(ws, i, j);
    forall k | 0 <= k < |sw| ensures ' ' !in sw[k] {
      assert sw[k] == ws[if k == i then j else if k == j then i else k];
    }
    JoinedWords(sw);
  }

  /** Exchanging two interior words of a space-free list and joining with spaces: read
      back as words, the count, the multiset, the first and the last word are kept. */
  lemma SwappedWordsKeep(ws: seq<string>, i: int, j: int, text: string)
    requires 1 <= i < |ws| - 1 && 1 <= j < |ws| - 1 && i != j && SpaceFree(ws)
    requires text == Join(Swapped(ws, i, j), " ")
    ensures var out := Words(text);
      && out == Swapped(ws, i, j)
      && |out| == |ws| && multiset(out) == multiset(ws)
      && out[0] == ws[0] && out[|out| - 1] == ws[|ws| - 1]
  {
    SwappedJoinedWords(ws, i, j);
    SwappedExchangesTwo(ws, i, j);
  }

  /** The pair `swap_random_words` exchanges lies strictly inside the word list. */
  lemma SwappedTextUnfolds(example: string, swaps: seq<(int, int)>)
    requires SwapDrawsFit(|Words(example)|, swaps)
    ensures var ws := Words(example);
      var t := FirstDistinct(swaps);
      && 1 <= swaps[t].0 < |ws| - 1 && 1 <= swaps[t].1 < |ws| - 1 && swaps[t].0 != swaps[t].1
      && SwappedText(example, swaps) == Join(Swapped(ws, swaps[t].0, swaps[t].1), " ")
  {
  }

  /** Read back as words, the swapped text is the input's words with the two drawn
      positions exchanged; so it has as many words, the same multiset of words, and the
      same first and last words. */
  lemma SwappedTextWords(example: string, swaps: seq<(int, int)>)
    requires SwapDrawsFit(|Words(example)|, swaps)
    ensures var ws := Words(example);
      var t := FirstDistinct(swaps);
      var out := Words(SwappedText(example, swaps));
      && out == Swapped(ws, swaps[t].0, swaps[t].1)
      && |out| == |ws| && multiset(out) == multiset(ws)
      && out[0] == ws[0] && out[|out| - 1] == ws[|ws| - 1]
  {
    var t := FirstDistinct(swaps);
    SwappedTextUnfolds(example, swaps);
    WordsLackSpace(example);
    SwappedWordsKeep(Words(example), swaps[t].0, swaps[t].1, SwappedText(example, swaps));
  }

  // ---------------------------------------------------------------------------
  // augment_negative

  /** The draws of one call to `augment_negative`. */
  datatype NegativeDraws = NegativeDraws(coin: int, idx1: int, idx2: int, swaps: seq<(int, int)>)

  /** The draws fit their ranges for an example of `n` words: the coin, drawn only for
      more than three words, is `randint(0, 1)`; the draws of the chosen corruption fit. */
  predicate AugmentDrawsFit(n: int, d: NegativeDraws) {
    && (n > 3 ==> 0 <= d.coin <= 1)
    && (if n <= 3 || d.coin == 0 then RemoveDrawsFit(n, d.idx1, d.idx2) else SwapDrawsFit(n, d.swaps))
  }

  /** What `augment_negative` returns: deletion for at most three words or a coin of 0,
      the swap otherwise. Only a one-word example fails. */
  function Augmented(example: string, d: NegativeDraws, ops: CaseOps): (r: Result<string>)
    requires AugmentDrawsFit(|Words(example)|, d)
    ensures r.Failure? <==> |Words(example)| == 1
    ensures r.Failure? ==> r.error == IndexError
  {
    if |Words(example)| <= 3 || d.coin == 0 then RemovedWords(example, d.idx1, d.idx2, ops)
    else Success(SwappedText(example, d.swaps))
  }

  /** `augment_negative`. */
  method AugmentNegative(example: string, d: NegativeDraws, ops: CaseOps) returns (r: Result<string>)
    requires AugmentDrawsFit(|Words(example)|, d)
    ensures r == Augmented(example, d, ops)
  {
    var words := Words(example);
    if |words| <= 3 {
      r := RemoveRandomWords(example, d.idx1, d.idx2, ops);
      return;
    }
    var coin := d.coin;
    if coin == 0 {
      r := RemoveRandomWords(example, d.idx1, d.idx2, ops);
    } else {
      var swapped := SwapRandomWords(example, d.swaps);
      r := Success(swapped);
    }
  }

  /** A negative example has one or two words fewer than its source when words were
      deleted, and exactly as many when two were exchanged. */
  lemma AugmentedWordCount(example: string, d: NegativeDraws, ops: CaseOps)
    requires AugmentDrawsFit(|Words(example)|, d) && CapitalizeKeepsWords(ops)
    requires |Words(example)| >= 2
    ensures var n := |Words(example)|;
      var m := |Words(Augmented(example, d, ops).value)|;
      if n <= 3 then m == n - 1 else if d.coin == 0 then m == n - 2 else m == n
  {
    if |Words(example)| <= 3 || d.coin == 0 {
      RemovedWordsWords(example, d.idx1, d.idx2, ops);
    } else {
      SwappedTextWords(example, d.swaps);
    }
  }
}
