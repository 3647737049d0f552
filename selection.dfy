/**
 * Sentence selection: from a block of text, pick one sentence that matches a slice
 * (a question, a sentence with a keyword, a comparative), or pass the text through
 * unchanged in the "all" mode.
 */
module Selection {
  import opened Results
  import opened Strings

  /** A selected sentence has fewer words than this. */
  const MAX_LEN := 15

  /** The sentence boundary handed to `split`. `str.split` reads it as one literal
      eight-character separator, not as the three alternatives it looks like. */
  const SENTENCE_BOUNDARY := ". |.\t|.\n"

  /** Unicode case mapping, left uninterpreted: `c.upper()` of one character,
      `w.lower()` and `w.capitalize()` of a word. */
  datatype CaseOps = CaseOps(upper: char -> char, lower: string -> string, capitalize: string -> string)

  /** The word-category lists the slices refer to; their contents are not part of this model. */
  datatype Categories = Categories(
    whWords: seq<string>,
    qwords: seq<string>,
    negations: seq<string>,
    temporal: seq<string>,
    possessive: seq<string>,
    comparatives: seq<string>)

  /** The slice types that select sentences by a word list. */
  const SLICE_TYPES: set<string> := {"wh", "q", "neg", "but", "temp", "poss", "comp"}

  /** The `slice_mappings` table: slice type to the words that trigger it. The key set
      is what `select_sentences` relies on: any other slice type besides "questions" and
      "all" raises `KeyError`. Three entries are named in the contract. `but` is the only
      entry whose words the table fixes itself rather than taking a category list. `comp`
      uses the same list that `get_comparative_sentences` tests each word against, so the
      "comp" slice and that extractor look for the same words. `neg` is named to pin down
      that this slice selects positives by negation words ("not", "never", ...), and has
      nothing to do with the negative examples `augment_negative` builds. The remaining
      four keys map to the word lists of their categories in the same way. */
  function SliceMappings(cats: Categories): (m: map<string, seq<string>>)
    ensures m.Keys == SLICE_TYPES
    ensures m["but"] == ["but"] && m["neg"] == cats.negations && m["comp"] == cats.comparatives
  {
    map[
      "wh" := cats.whWords,
      "q" := cats.qwords,
      "neg" := cats.negations,
      "but" := ["but"],
      "temp" := cats.temporal,
      "poss" := cats.possessive,
      "comp" := cats.comparatives]
  }

  // ---------------------------------------------------------------------------
  // Text normalisation.

  /** The text with every `"` removed and then every `.'` turned into `.`. */
  function Unquoted(text: string): string {
    Replace(Replace(text, "\"", ""), ".'", ".")
  }

  /** `preprocess_text`: the unquoted text cut at every occurrence of the boundary literal.
      No piece holds a double quote or the boundary literal. */
  function PreprocessText(text: string): (parts: seq<string>)
    ensures |parts| >= 1
    ensures forall k :: 0 <= k < |parts| ==> '"' !in parts[k] && !Occurs(parts[k], SENTENCE_BOUNDARY)
  {
    var unquoted := Unquoted(text);
    ReplaceDeletesChar(text, '"');
    ReplaceKeepsAbsentChar(Replace(text, "\"", ""), ".'", ".", '"');
    SplitKeepsAbsentChar(unquoted, SENTENCE_BOUNDARY, '"');
    SplitPiecesAvoidSep(unquoted, SENTENCE_BOUNDARY);
    Split(unquoted, SENTENCE_BOUNDARY)
  }

  /** Joining the pieces with the boundary literal gives back the unquoted text. */
  lemma PreprocessRoundTrip(text: string)
    ensures Join(PreprocessText(text), SENTENCE_BOUNDARY) == Unquoted(text)
  {
    SplitJoin(Unquoted(text), SENTENCE_BOUNDARY);
  }

  /** A text with no double quote, no apostrophe and no `|` comes back whole, as the
      only part: the boundary literal cannot occur in it, whatever full stops it has. */
  lemma PreprocessKeepsPlainText(text: string)
    requires '"' !in text && '\'' !in text && '|' !in text
    ensures PreprocessText(text) == [text]
  {
    ReplaceIsSplitJoin(text, "\"", "");
    SplitMissingChar(text, "\"", '"');
    ReplaceIsSplitJoin(text, ".'", ".");
    SplitMissingChar(text, ".'", '\'');
    SplitMissingChar(text, SENTENCE_BOUNDARY, '|');
  }

  /** So two sentences separated by `. ` stay one part. */
  lemma TwoSentencesOnePart()
    ensures PreprocessText("I do not know. I am tired.") == ["I do not know. I am tired."]
  {
    PreprocessKeepsPlainText("I do not know. I am tired.");
  }

  /** `fix_capitalization`: strip the sentence, upper-case its first character, and turn
      the `i` of ` i ` and ` i'` into `I`. Indexing the first character of an empty
      stripped sentence raises `IndexError`. */
  function FixCapitalization(sentence: string, ops: CaseOps): (r: Result<string>)
    ensures r.Failure? <==> Strip(sentence) == ""
    ensures r.Failure? ==> r.error == IndexError
    ensures r.Success? ==> r.value != ""
  {
    var t := Strip(sentence);
    if t == "" then Failure(IndexError)
    else
      var h := [ops.upper(t[0])] + t[1..];
      var once := Replace(h, " i ", " I ");
      ReplaceMiddle(h, " i ", " I ");
      ReplaceMiddle(once, " i'", " I'");
      Success(Replace(once, " i'", " I'"))
  }

  /** `i` stands alone at index `k` of `h`: a space before it, a space or an apostrophe after. */
  predicate LoneI(h: string, k: int) {
    0 < k < |h| - 1 && h[k - 1] == ' ' && h[k] == 'i' && (h[k + 1] == ' ' || h[k + 1] == '\'')
  }

  /** `fix_capitalization` keeps the stripped length and upper-cases the first character;
      any other character it changes is an `i` standing alone, which becomes `I`. */
  lemma FixCapitalizationChanges(sentence: string, ops: CaseOps)
    requires Strip(sentence) != ""
    ensures
      var t := Strip(sentence);
      var h := [ops.upper(t[0])] + t[1..];
      var r := FixCapitalization(sentence, ops).value;
      && |r| == |t|
      && r[0] == ops.upper(t[0])
      && forall k :: 0 <= k < |h| ==> r[k] == h[k] || (LoneI(h, k) && r[k] == 'I')
  {
    var t := Strip(sentence);
    var h := [ops.upper(t[0])] + t[1..];
    var once := Replace(h, " i ", " I ");
    var r := Replace(once, " i'", " I'");
    ReplaceMiddle(h, " i ", " I ");
    ReplaceMiddle(once, " i'", " I'");
    assert r == FixCapitalization(sentence, ops).value;
    assert |once| == |h| && |r| == |h|;
    forall k | 0 <= k < |h| ensures r[k] == h[k] || (LoneI(h, k) && r[k] == 'I') {
      assert once[k] == h[k] || MiddleReplaced(h, once, k, " i ", " I ");
      assert r[k] == once[k] || MiddleReplaced(once, r, k, " i'", " I'");
      if r[k] != once[k] {
        assert once[k - 1] == h[k - 1] || MiddleReplaced(h, once, k - 1, " i ", " I ");
        assert once[k + 1] == h[k + 1] || MiddleReplaced(h, once, k + 1, " i ", " I ");
      }
    }
  }

  // ---------------------------------------------------------------------------
  // The three extractors share one loop: normalise each part in turn and return the
  // first one the criterion picks.

  /** What an extractor looks for in a part. */
  datatype Criterion =
    | Question(qwords: seq<string>)          // get_questions
    | Keywords(searchwords: seq<string>)     // get_sentences_with
    | Comparative(comparatives: seq<string>) // get_comparative_sentences

  /** The body of each extractor's loop for one normalised (non-empty) part. */
  function Pick(c: Criterion, part: string, ops: CaseOps): Option<string>
    requires part != ""
  {
    var words := Words(part);
    match c
    case Question(qwords) =>
      if 0 < |words| < MAX_LEN && part[|part| - 1] == '?' && ops.lower(words[0]) in qwords
      then Some(part) else None
    case Keywords(searchwords) =>
      if 1 < |words| < MAX_LEN then ScanKeywords(part, words, searchwords) else None
    case Comparative(comparatives) =>
      if 1 < |words| < MAX_LEN then ScanComparative(part, words, comparatives) else None
  }

  /** The inner loop of `get_sentences_with`, over the search words in order. */
  function ScanKeywords(part: string, words: seq<string>, searchwords: seq<string>): Option<string>
    requires part != ""
    decreases |searchwords|
  {
    if searchwords == [] then None
    else if part[|part| - 1] == '.' && searchwords[0] in words then Some(part)
    else if part[|part| - 1] != '?' && searchwords[0] in words then Some(part + ".")
    else ScanKeywords(part, words, searchwords[1..])
  }

  /** A word ending in `est` or `ier`, which `get_comparative_sentences` also accepts. */
  predicate SuperlativeLike(w: string) {
    |w| >= 3 && w[|w| - 3..] in ["est", "ier"]
  }

  /** The inner loop of `get_comparative_sentences`, over the words of the part. */
  function ScanComparative(part: string, words: seq<string>, comparatives: seq<string>): Option<string>
    decreases |words|
  {
    if words == [] then None
    else if words[0] in comparatives then Some(part)
    else if SuperlativeLike(words[0]) then Some(part)
    else ScanComparative(part, words[1..], comparatives)
  }

  /** One turn of the outer loop: normalise the part, then let the criterion look at it. */
  function Examine(c: Criterion, raw: string, ops: CaseOps): (r: Result<Option<string>>)
    ensures r.Failure? <==> Strip(raw) == ""
    ensures r.Failure? ==> r.error == IndexError
  {
    match FixCapitalization(raw, ops)
    case Failure(e) => Failure(e)
    case Success(part) => Success(Pick(c, part, ops))
  }

  /** `Examine` for a fixed criterion, as the step the outer loop takes on each part. */
  function Examiner(c: Criterion, ops: CaseOps): string -> Result<Option<string>> {
    raw => Examine(c, raw, ops)
  }

  /** The outer loop: the result of the first part the step picks or fails on. An
      exception it raises is the step's exception on one of the parts. */
  function Search(parts: seq<string>, examine: string -> Result<Option<string>>): (r: Result<Option<string>>)
    ensures r.Failure? ==> exists k :: 0 <= k < |parts| && examine(parts[k]) == r
    decreases |parts|
  {
    if parts == [] then Success(None)
    else match examine(parts[0])
      case Failure(e) => Failure(e)
      case Success(Some(s)) => Success(Some(s))
      case Success(None) => Search(parts[1..], examine)
  }

  /** The only exception an extractor raises is the `IndexError` of normalising a blank part. */
  lemma SearchRaisesIndexError(parts: seq<string>, c: Criterion, ops: CaseOps)
    ensures var r := Search(parts, Examiner(c, ops));
      r.Failure? ==> r.error == IndexError
  {
    var r := Search(parts, Examiner(c, ops));
    if r.Failure? {
      var k :| 0 <= k < |parts| && Examiner(c, ops)(parts[k]) == r;
      assert Examine(c, parts[k], ops) == r;
    }
  }

  /** `get_questions`. */
  function GetQuestions(text: string, qwords: seq<string>, ops: CaseOps): (r: Result<Option<string>>)
    ensures r.Failure? ==> r.error == IndexError
  {
    SearchRaisesIndexError(PreprocessText(text), Question(qwords), ops);
    Search(PreprocessText(text), Examiner(Question(qwords), ops))
  }

  /** `get_sentences_with`. */
  function GetSentencesWith(text: string, searchwords: seq<string>, ops: CaseOps): (r: Result<Option<string>>)
    ensures r.Failure? ==> r.error == IndexError
  {
    SearchRaisesIndexError(PreprocessText(text), Keywords(searchwords), ops);
    Search(PreprocessText(text), Examiner(Keywords(searchwords), ops))
  }

  /** `get_comparative_sentences`. */
  function GetComparativeSentences(text: string, comparatives: seq<string>, ops: CaseOps): (r: Result<Option<string>>)
    ensures r.Failure? ==> r.error == IndexError
  {
    SearchRaisesIndexError(PreprocessText(text), Comparative(comparatives), ops);
    Search(PreprocessText(text), Examiner(Comparative(comparatives), ops))
  }

  /** The two modes "questions" and "all" are not slice types of the table. */
  lemma ModesAreNotSlices()
    ensures "questions" !in SLICE_TYPES && "all" !in SLICE_TYPES
  {
    assert "questions"[0] == 'q' && "questions" != "q";
    assert "all"[0] == 'a';
  }

  /** `select_sentences`. In the "all" mode the text passes unchanged exactly when it
      has between one and thirteen spaces (two to fourteen words); "questions" asks
      `get_questions` with the question words; a slice type of the table asks
      `get_sentences_with` with that slice's words; any other slice type raises `KeyError`. */
  function SelectSentences(text: string, sliceType: string, cats: Categories, ops: CaseOps): (r: Result<Option<string>>)
    ensures sliceType == "questions" ==> r == GetQuestions(text, cats.qwords, ops)
    ensures sliceType in SLICE_TYPES ==> r == GetSentencesWith(text, SliceMappings(cats)[sliceType], ops)
    ensures sliceType == "all" ==>
      && r.Success?
      && (r.value.Some? ==> r.value.value == text)
      && (r.value.Some? <==> 1 <= Count(text, ' ') <= 13)
    ensures sliceType != "questions" && sliceType != "all" && sliceType !in SLICE_TYPES ==>
      r == Failure(KeyError)
  {
    ModesAreNotSlices();
    if sliceType == "questions" then GetQuestions(text, cats.qwords, ops)
    else if sliceType == "all" then
      var numWords := |Words(text)|;
      SplitCharCount(text, ' ');
      if numWords > 1 && numWords < MAX_LEN then Success(Some(text)) else Success(None)
    else
      var mappings := SliceMappings(cats);
      if sliceType in mappings then GetSentencesWith(text, mappings[sliceType], ops)
      else Failure(KeyError)
  }

  // ---------------------------------------------------------------------------
  // The search returns the first part the criterion picks.

  /** The step looks at the part and moves on. */
  ghost predicate Skipped(examine: string -> Result<Option<string>>, raw: string) {
    examine(raw) == Success(None)
  }

  /** When the parts before `k` are skipped, the search ends with what the step makes of
      part `k`, unless that too is skipped. */
  lemma {:induction false} SearchStopsAtFirst(parts: seq<string>, examine: string -> Result<Option<string>>, k: nat)
    requires k < |parts|
    requires forall j :: 0 <= j < k ==> Skipped(examine, parts[j])
    requires !Skipped(examine, parts[k])
    ensures Search(parts, examine) == examine(parts[k])
    decreases k
  {
    if k > 0 {
      assert Skipped(examine, parts[0]);
      assert forall j :: 0 <= j < k - 1 ==> parts[1..][j] == parts[j + 1];
      SearchStopsAtFirst(parts[1..], examine, k - 1);
    }
  }

  /** The search finds nothing exactly when every part is skipped. */
  lemma {:induction false} SearchFindsNothing(parts: seq<string>, examine: string -> Result<Option<string>>)
    ensures Search(parts, examine) == Success(None) <==> forall j :: 0 <= j < |parts| ==> Skipped(examine, parts[j])
    decreases |parts|
  {
    if parts != [] {
      var rest := parts[1..];
      SearchFindsNothing(rest, examine);
      if Skipped(examine, parts[0]) {
        if forall j :: 0 <= j < |rest| ==> Skipped(examine, rest[j]) {
          forall j | 0 <= j < |parts| ensures Skipped(examine, parts[j]) {
            if j > 0 { assert parts[j] == rest[j - 1]; }
          }
        } else {
          var j :| 0 <= j < |rest| && !Skipped(examine, rest[j]);
          assert parts[j + 1] == rest[j];
        }
      }
    }
  }

  /** Whatever the search returns the step made of one of the parts. */
  lemma {:induction false} SearchSound(parts: seq<string>, examine: string -> Result<Option<string>>, x: string)
    requires Search(parts, examine) == Success(Some(x))
    ensures exists k :: 0 <= k < |parts| && examine(parts[k]) == Success(Some(x))
    decreases |parts|
  {
    if examine(parts[0]) != Success(Some(x)) {
      var rest := parts[1..];
      SearchSound(rest, examine, x);
      var k :| 0 <= k < |rest| && examine(rest[k]) == Success(Some(x));
      assert rest[k] == parts[k + 1];
    }
  }

  // ---------------------------------------------------------------------------
  // What each criterion accepts.

  /** A keyword is one of the words of the part. */
  ghost predicate HasKeyword(words: seq<string>, searchwords: seq<string>) {
    exists sw :: sw in searchwords && sw in words
  }

  /** The keyword scan: once some search word is a word of the part, a part ending in
      `.` is returned, a part ending in `?` is not, and any other part gets a `.`. */
  lemma {:induction false} ScanKeywordsSpec(part: string, words: seq<string>, searchwords: seq<string>)
    requires part != ""
    ensures ScanKeywords(part, words, searchwords) ==
      if !HasKeyword(words, searchwords) then None
      else if part[|part| - 1] == '.' then Some(part)
      else if part[|part| - 1] == '?' then None
      else Some(part + ".")
    decreases |searchwords|
  {
    if searchwords != [] {
      var rest := searchwords[1..];
      ScanKeywordsSpec(part, words, rest);
      assert searchwords == [searchwords[0]] + rest;
      if searchwords[0] !in words {
        assert HasKeyword(words, searchwords) <==> HasKeyword(words, rest);
      } else {
        assert HasKeyword(words, searchwords);
        if part[|part| - 1] == '?' && HasKeyword(words, rest) {
          assert ScanKeywords(part, words, rest) == None;
        }
      }
    }
  }

  /** The comparative scan picks the part exactly when one of its words is a comparative
      or ends in `est` or `ier`. */
  lemma {:induction false} ScanComparativeSpec(part: string, words: seq<string>, comparatives: seq<string>)
    ensures ScanComparative(part, words, comparatives) ==
      if exists w :: w in words && (w in comparatives || SuperlativeLike(w)) then Some(part) else None
    decreases |words|
  {
    if words != [] {
      ScanComparativeSpec(part, words[1..], comparatives);
      assert words == [words[0]] + words[1..];
      if !(words[0] in comparatives || SuperlativeLike(words[0])) {
        assert (exists w :: w in words && (w in comparatives || SuperlativeLike(w))) <==>
          (exists w :: w in words[1..] && (w in comparatives || SuperlativeLike(w)));
      }
    }
  }

  /** What a picked part was before the criterion looked at it. */
  lemma ExaminedPart(c: Criterion, raw: string, ops: CaseOps, x: string) returns (part: string)
    requires Examine(c, raw, ops) == Success(Some(x))
    ensures FixCapitalization(raw, ops) == Success(part)
    ensures part != "" && Pick(c, part, ops) == Some(x)
  {
    part := FixCapitalization(raw, ops).value;
  }

  /** A question from `get_questions` ends in `?`, has fewer than `MAX_LEN` words, and
      its first word, lower-cased, is a question word. */
  lemma QuestionShape(text: string, qwords: seq<string>, ops: CaseOps, x: string)
    requires GetQuestions(text, qwords, ops) == Success(Some(x))
    ensures x != "" && x[|x| - 1] == '?'
    ensures |Words(x)| < MAX_LEN
    ensures ops.lower(Words(x)[0]) in qwords
  {
    var parts := PreprocessText(text);
    SearchSound(parts, Examiner(Question(qwords), ops), x);
    var k :| 0 <= k < |parts| && Examine(Question(qwords), parts[k], ops) == Success(Some(x));
    var part := ExaminedPart(Question(qwords), parts[k], ops, x);
    QuestionPickShape(part, qwords, ops, x);
  }

  /** What the question criterion returns for a part: the part itself. */
  lemma QuestionPickShape(part: string, qwords: seq<string>, ops: CaseOps, x: string)
    requires part != "" && Pick(Question(qwords), part, ops) == Some(x)
    ensures x == part && x[|x| - 1] == '?'
    ensures |Words(x)| < MAX_LEN
    ensures ops.lower(Words(x)[0]) in qwords
  {
  }

  /** The last word of `x` is `sw` with a `.` appended. */
  ghost predicate EndsWithWordDot(x: string, sw: string) {
    Words(x)[|Words(x)| - 1] == sw + "."
  }

  /** Some search word is a word of `x`, or is the last word of `x` without the final `.`. */
  ghost predicate MentionsKeyword(x: string, searchwords: seq<string>) {
    exists sw :: sw in searchwords && (sw in Words(x) || EndsWithWordDot(x, sw))
  }

  /** Appending `.` to a part keeps its word count, and each of its words is still a word
      of the result or, for the last one, the result's last word without the `.`. */
  lemma AppendDotKeepsWords(part: string, sw: string)
    requires sw in Words(part)
    ensures |Words(part + ".")| == |Words(part)|
    ensures sw in Words(part + ".") || EndsWithWordDot(part + ".", sw)
  {
    var words, dotted := Words(part), Words(part + ".");
    SplitAppend(part, '.', ' ');
    var n := |words|;
    assert dotted == words[..n - 1] + [words[n - 1] + "."];
    var i :| 0 <= i < n && words[i] == sw;
    if i < n - 1 {
      assert dotted[i] == sw;
    }
  }

  /** What the keyword criterion returns for a part. */
  lemma KeywordPickShape(part: string, searchwords: seq<string>, ops: CaseOps, x: string)
    requires part != "" && Pick(Keywords(searchwords), part, ops) == Some(x)
    ensures x != "" && x[|x| - 1] == '.'
    ensures 1 < |Words(x)| < MAX_LEN
    ensures MentionsKeyword(x, searchwords)
  {
    var words := Words(part);
    assert ScanKeywords(part, words, searchwords) == Some(x);
    ScanKeywordsSpec(part, words, searchwords);
    var sw :| sw in searchwords && sw in words;
    if x == part {
      assert sw in Words(x);
    } else {
      assert x == part + ".";
      AppendDotKeepsWords(part, sw);
    }
  }

  /** A sentence from `get_sentences_with` ends in `.`, has two to fourteen words, and one
      of the search words is one of its words, or is its last word before the `.` that
      was appended. */
  lemma KeywordSentenceShape(text: string, searchwords: seq<string>, ops: CaseOps, x: string)
    requires GetSentencesWith(text, searchwords, ops) == Success(Some(x))
    ensures x != "" && x[|x| - 1] == '.'
    ensures 1 < |Words(x)| < MAX_LEN
    ensures MentionsKeyword(x, searchwords)
  {
    var parts := PreprocessText(text);
    SearchSound(parts, Examiner(Keywords(searchwords), ops), x);
    var k :| 0 <= k < |parts| && Examine(Keywords(searchwords), parts[k], ops) == Success(Some(x));
    var part := ExaminedPart(Keywords(searchwords), parts[k], ops, x);
    KeywordPickShape(part, searchwords, ops, x);
  }

  /** A sentence from `get_comparative_sentences` has two to fourteen words, one of which
      is a comparative or ends in `est` or `ier`. */
  lemma ComparativeSentenceShape(text: string, comparatives: seq<string>, ops: CaseOps, x: string)
    requires GetComparativeSentences(text, comparatives, ops) == Success(Some(x))
    ensures 1 < |Words(x)| < MAX_LEN
    ensures exists w :: w in Words(x) && (w in comparatives || SuperlativeLike(w))
  {
    var parts := PreprocessText(text);
    SearchSound(parts, Examiner(Comparative(comparatives), ops), x);
    var k :| 0 <= k < |parts| && Examine(Comparative(comparatives), parts[k], ops) == Success(Some(x));
    var part := ExaminedPart(Comparative(comparatives), parts[k], ops, x);
    ComparativePickShape(part, comparatives, ops, x);
  }

  /** What the comparative criterion returns for a part: the part itself. */
  lemma ComparativePickShape(part: string, comparatives: seq<string>, ops: CaseOps, x: string)
    requires part != "" && Pick(Comparative(comparatives), part, ops) == Some(x)
    ensures x == part && 1 < |Words(x)| < MAX_LEN
    ensures exists w :: w in Words(x) && (w in comparatives || SuperlativeLike(w))
  {
    ScanComparativeSpec(part, Words(part), comparatives);
  }

  /** Whatever `select_sentences` selects has at most fourteen words, whichever the
      slice; outside the "questions" slice it has at least two. */
  lemma SelectedShort(text: string, sliceType: string, cats: Categories, ops: CaseOps, x: string)
    requires SelectSentences(text, sliceType, cats, ops) == Success(Some(x))
    ensures |Words(x)| < MAX_LEN
    ensures sliceType != "questions" ==> 2 <= |Words(x)|
  {
    if sliceType == "questions" {
      QuestionShape(text, cats.qwords, ops, x);
    } else if sliceType == "all" {
      SplitCharCount(text, ' ');
    } else {
      KeywordSentenceShape(text, SliceMappings(cats)[sliceType], ops, x);
    }
  }
}
