/**
 * The driver: the loop of `main` that turns rows of text blocks into positive and
 * negative examples, the pairing of the two lists for output, and the task-name table.
 */
module Driver {
  import opened Results
  import opened Strings
  import opened Selection
  import opened Negatives

  /** The row loop stops once the two lists together hold more than this many examples. */
  const MAX_EXAMPLES := 5000

  /** The command-line settings and the opaque parts the loop depends on. */
  datatype Config = Config(sourceTask: string, sliceType: string, cats: Categories, ops: CaseOps)

  /** The two lists the loop appends to. */
  datatype Examples = Examples(positives: seq<string>, negatives: seq<string>)

  /** The random draws for one text: `prob_neg` from `randint(1, 5)`, then those of
      `augment_negative` when a negative is made. */
  datatype TextDraws = TextDraws(probNeg: int, negative: NegativeDraws)

  /** The number of examples collected so far. */
  function Size(acc: Examples): nat {
    |acc.positives| + |acc.negatives|
  }

  /** The draws for `text` fit their ranges. */
  predicate TextDrawsFit(cfg: Config, text: string, d: TextDraws) {
    && 1 <= d.probNeg <= 5
    && (cfg.sourceTask != "CoLA" ==>
          match SelectSentences(text, cfg.sliceType, cfg.cats, cfg.ops)
          case Success(Some(x)) => AugmentDrawsFit(|Words(x)|, d.negative)
          case _ => true)
  }

  /** One turn of the inner loop. A CoLA text goes to the list its row's label names.
      Any other text yields the sentence it selects, if any, as a positive, and a
      corruption of that sentence as a negative whenever `prob_neg < 6`. */
  function TextStep(cfg: Config, rowLabel: string, text: string, d: TextDraws, acc: Examples): (r: Result<Examples>)
    requires TextDrawsFit(cfg, text, d)
    ensures r.Success? ==> acc.positives <= r.value.positives && acc.negatives <= r.value.negatives
    ensures r.Success? ==> Size(r.value) <= Size(acc) + 2
    ensures cfg.sourceTask != "CoLA" && r.Success? ==>
      |r.value.positives| - |acc.positives| == |r.value.negatives| - |acc.negatives|
    ensures cfg.sourceTask != "CoLA" && r.Success? && |r.value.positives| > |acc.positives| ==>
      var x := r.value.positives[|acc.positives|];
      && SelectSentences(text, cfg.sliceType, cfg.cats, cfg.ops) == Success(Some(x))
      && Augmented(x, d.negative, cfg.ops) == Success(r.value.negatives[|acc.negatives|])
  {
    if cfg.sourceTask == "CoLA" then
      if rowLabel == "1" then Success(Examples(acc.positives + [text], acc.negatives))
      else Success(Examples(acc.positives, acc.negatives + [text]))
    else match SelectSentences(text, cfg.sliceType, cfg.cats, cfg.ops)
      case Failure(e) => Failure(e)
      case Success(None) => Success(acc)
      case Success(Some(positive)) =>
        if d.probNeg < 6 then
          match Augmented(positive, d.negative, cfg.ops)
          case Failure(e) => Failure(e)
          case Success(negative) => Success(Examples(acc.positives + [positive], acc.negatives + [negative]))
        else Success(Examples(acc.positives + [positive], acc.negatives))
  }

  /** The draws of a row fit, one per text. */
  predicate RowDrawsFit(cfg: Config, texts: seq<string>, draws: seq<TextDraws>) {
    |draws| == |texts| && forall j :: 0 <= j < |texts| ==> TextDrawsFit(cfg, texts[j], draws[j])
  }

  /** The inner loop over the texts of one row, stopping at the first exception. It only
      appends to the two lists. */
  function RunTexts(cfg: Config, rowLabel: string, texts: seq<string>, draws: seq<TextDraws>, acc: Examples): (r: Result<Examples>)
    requires RowDrawsFit(cfg, texts, draws)
    ensures r.Success? ==> acc.positives <= r.value.positives && acc.negatives <= r.value.negatives
    decreases |texts|
  {
    if texts == [] then Success(acc)
    else match TextStep(cfg, rowLabel, texts[0], draws[0], acc)
      case Failure(e) => Failure(e)
      case Success(next) => RunTexts(cfg, rowLabel, texts[1..], draws[1..], next)
  }

  /** The draws of every row fit; the loaded blocks and labels come in pairs. */
  predicate RowsFit(cfg: Config, blocks: seq<seq<string>>, labels: seq<string>, draws: seq<seq<TextDraws>>) {
    && |blocks| == |labels| == |draws|
    && forall i :: 0 <= i < |blocks| ==> RowDrawsFit(cfg, blocks[i], draws[i])
  }

  /** The outer loop over the rows: after each row it stops once more than
      `MAX_EXAMPLES` examples are collected. It only appends to the two lists. */
  function RunRows(cfg: Config, blocks: seq<seq<string>>, labels: seq<string>, draws: seq<seq<TextDraws>>, acc: Examples): (r: Result<Examples>)
    requires RowsFit(cfg, blocks, labels, draws)
    ensures r.Success? ==> acc.positives <= r.value.positives && acc.negatives <= r.value.negatives
    decreases |blocks|
  {
    if blocks == [] then Success(acc)
    else match RunTexts(cfg, labels[0], blocks[0], draws[0], acc)
      case Failure(e) => Failure(e)
      case Success(next) =>
        if Size(next) > MAX_EXAMPLES then Success(next)
        else RunRows(cfg, blocks[1..], labels[1..], draws[1..], next)
  }

  /** The inner loop from text `j` on: one step, then the rest. */
  lemma RunTextsFrom(cfg: Config, rowLabel: string, texts: seq<string>, draws: seq<TextDraws>, j: int, acc: Examples)
    requires RowDrawsFit(cfg, texts, draws) && 0 <= j < |texts|
    ensures RowDrawsFit(cfg, texts[j..], draws[j..]) && RowDrawsFit(cfg, texts[j + 1..], draws[j + 1..])
    ensures RunTexts(cfg, rowLabel, texts[j..], draws[j..], acc) ==
      match TextStep(cfg, rowLabel, texts[j], draws[j], acc)
      case Failure(e) => Failure(e)
      case Success(next) => RunTexts(cfg, rowLabel, texts[j + 1..], draws[j + 1..], next)
  {
    assert texts[j..][0] == texts[j] && texts[j..][1..] == texts[j + 1..];
    assert draws[j..][0] == draws[j] && draws[j..][1..] == draws[j + 1..];
  }

  /** The outer loop from row `i` on: one row, then the cap test, then the rest. */
  lemma RunRowsFrom(cfg: Config, blocks: seq<seq<string>>, labels: seq<string>, draws: seq<seq<TextDraws>>, i: int, acc: Examples)
    requires RowsFit(cfg, blocks, labels, draws) && 0 <= i < |blocks|
    ensures RowsFit(cfg, blocks[i..], labels[i..], draws[i..]) && RowsFit(cfg, blocks[i + 1..], labels[i + 1..], draws[i + 1..])
    ensures RunRows(cfg, blocks[i..], labels[i..], draws[i..], acc) ==
      match RunTexts(cfg, labels[i], blocks[i], draws[i], acc)
      case Failure(e) => Failure(e)
      case Success(next) =>
        if Size(next) > MAX_EXAMPLES then Success(next)
        else RunRows(cfg, blocks[i + 1..], labels[i + 1..], draws[i + 1..], next)
  {
    assert blocks[i..][0] == blocks[i] && blocks[i..][1..] == blocks[i + 1..];
    assert labels[i..][0] == labels[i] && labels[i..][1..] == labels[i + 1..];
    assert draws[i..][0] == draws[i] && draws[i..][1..] == draws[i + 1..];
  }

  /** One turn of the inner loop (lines 207-219): the text, or the sentence it selects
      and a corruption of it, appended to the lists. */
  method CollectText(cfg: Config, rowLabel: string, text: string, d: TextDraws, positives: seq<string>, negatives: seq<string>)
    returns (r: Result<Examples>)
    requires TextDrawsFit(cfg, text, d)
    ensures r == TextStep(cfg, rowLabel, text, d, Examples(positives, negatives))
  {
    if cfg.sourceTask == "CoLA" {
      if rowLabel == "1" {
        return Success(Examples(positives + [text], negatives));
      } else {
        return Success(Examples(positives, negatives + [text]));
      }
    }
    var positive := SelectSentences(text, cfg.sliceType, cfg.cats, cfg.ops);
    if positive.Failure? {
      return Failure(positive.error);
    }
    var ps, ns := positives, negatives;
    if positive.value.Some? {
      ps := ps + [positive.value.value];
      if d.probNeg < 6 {
        var negative := AugmentNegative(positive.value.value, d.negative, cfg.ops);
        if negative.Failure? {
          return Failure(negative.error);
        }
        ns := ns + [negative.value];
      }
    }
    r := Success(Examples(ps, ns));
  }

  /** The inner loop over the texts of one row (lines 206-219), stopping at the first
      exception. */
  method CollectRow(cfg: Config, rowLabel: string, texts: seq<string>, draws: seq<TextDraws>, acc: Examples)
    returns (r: Result<Examples>)
    requires RowDrawsFit(cfg, texts, draws)
    ensures r == RunTexts(cfg, rowLabel, texts, draws, acc)
  {
    var positives, negatives := acc.positives, acc.negatives;
    var j := 0;
    while j < |texts|
      invariant 0 <= j <= |texts|
      invariant RunTexts(cfg, rowLabel, texts, draws, acc) ==
        RunTexts(cfg, rowLabel, texts[j..], draws[j..], Examples(positives, negatives))
    {
      RunTextsFrom(cfg, rowLabel, texts, draws, j, Examples(positives, negatives));
      var step := CollectText(cfg, rowLabel, texts[j], draws[j], positives, negatives);
      if step.Failure? {
        return Failure(step.error);
      }
      positives, negatives := step.value.positives, step.value.negatives;
      j := j + 1;
    }
    assert texts[j..] == [] && draws[j..] == [];
    r := Success(Examples(positives, negatives));
  }

  /** The loop of `main` (lines 203-221): the rows in order, each appending to the two
      lists, with the cap tested after each row. */
  method CollectExamples(cfg: Config, blocks: seq<seq<string>>, labels: seq<string>, draws: seq<seq<TextDraws>>)
    returns (r: Result<Examples>)
    requires RowsFit(cfg, blocks, labels, draws)
    ensures r == RunRows(cfg, blocks, labels, draws, Examples([], []))
  {
    var positives: seq<string> := [];
    var negatives: seq<string> := [];
    var i := 0;
    while i < |labels|
      invariant 0 <= i <= |labels|
      invariant RunRows(cfg, blocks, labels, draws, Examples([], [])) ==
        RunRows(cfg, blocks[i..], labels[i..], draws[i..], Examples(positives, negatives))
    {
      RunRowsFrom(cfg, blocks, labels, draws, i, Examples(positives, negatives));
      var row := CollectRow(cfg, labels[i], blocks[i], draws[i], Examples(positives, negatives));
      if row.Failure? {
        return Failure(row.error);
      }
      positives, negatives := row.value.positives, row.value.negatives;
      if |positives| + |negatives| > MAX_EXAMPLES {
        break;
      }
      i := i + 1;
    }
    if i == |labels| {
      assert blocks[i..] == [];
    }
    r := Success(Examples(positives, negatives));
  }

  // ---------------------------------------------------------------------------
  // What the loop promises.

  /** The lists only grow: what was collected before a row stays a prefix. */
  lemma {:induction false} RunTextsAppends(cfg: Config, rowLabel: string, texts: seq<string>, draws: seq<TextDraws>, acc: Examples)
    requires RowDrawsFit(cfg, texts, draws)
    ensures var r := RunTexts(cfg, rowLabel, texts, draws, acc);
      r.Success? ==>
        && acc.positives <= r.value.positives && acc.negatives <= r.value.negatives
        && Size(r.value) <= Size(acc) + 2 * |texts|
    decreases |texts|
  {
    if texts != [] {
      var step := TextStep(cfg, rowLabel, texts[0], draws[0], acc);
      if step.Success? {
        RunTextsAppends(cfg, rowLabel, texts[1..], draws[1..], step.value);
      }
    }
  }

  /** Outside CoLA a text raises what its selection or the corruption raises, leaves
      the lists alone when nothing is selected, and otherwise appends the selected
      sentence and its corruption: nothing selected is dropped. */
  lemma TextStepCollects(cfg: Config, rowLabel: string, text: string, d: TextDraws, acc: Examples)
    requires cfg.sourceTask != "CoLA" && TextDrawsFit(cfg, text, d)
    ensures var r := TextStep(cfg, rowLabel, text, d, acc);
      var s := SelectSentences(text, cfg.sliceType, cfg.cats, cfg.ops);
      && (s.Failure? ==> r == Failure(s.error))
      && (s == Success(None) ==> r == Success(acc))
      && (s.Success? && s.value.Some? ==>
            var x := s.value.value;
            var n := Augmented(x, d.negative, cfg.ops);
            && (n.Failure? ==> r == Failure(n.error))
            && (n.Success? ==> r == Success(Examples(acc.positives + [x], acc.negatives + [n.value]))))
  {
  }

  /** The positives one text is to contribute: a CoLA text of a row labelled `1` is
      itself one, a CoLA text of another row none; any other text contributes the
      sentence it selects, if it selects one. */
  function TextPositives(cfg: Config, rowLabel: string, text: string): seq<string> {
    if cfg.sourceTask == "CoLA" then (if rowLabel == "1" then [text] else [])
    else match SelectSentences(text, cfg.sliceType, cfg.cats, cfg.ops)
      case Success(Some(x)) => [x]
      case _ => []
  }

  /** The positives of a row's texts, in order. */
  function RowPositives(cfg: Config, rowLabel: string, texts: seq<string>): seq<string>
    decreases |texts|
  {
    if texts == [] then [] else TextPositives(cfg, rowLabel, texts[0]) + RowPositives(cfg, rowLabel, texts[1..])
  }

  /** The positives of the rows, in order. */
  function RowsPositives(cfg: Config, blocks: seq<seq<string>>, labels: seq<string>): seq<string>
    requires |blocks| == |labels|
    decreases |blocks|
  {
    if blocks == [] then []
    else RowPositives(cfg, labels[0], blocks[0]) + RowsPositives(cfg, blocks[1..], labels[1..])
  }

  /** A text that does not raise appends exactly its positives: none is dropped. */
  lemma TextStepPositives(cfg: Config, rowLabel: string, text: string, d: TextDraws, acc: Examples)
    requires TextDrawsFit(cfg, text, d)
    ensures var r := TextStep(cfg, rowLabel, text, d, acc);
      r.Success? ==> r.value.positives == acc.positives + TextPositives(cfg, rowLabel, text)
  {
  }

  /** Appending `p0` and then `rest` appends `p0 + rest`. */
  lemma AppendedTwice(xs: seq<string>, p0: seq<string>, rest: seq<string>, mid: seq<string>, ys: seq<string>)
    requires mid == xs + p0 && ys == mid + rest
    ensures ys == xs + (p0 + rest)
  {
    assert xs + p0 + rest == xs + (p0 + rest);
  }

  /** A row that does not raise appends exactly the positives of all its texts, in
      order. */
  lemma {:induction false} RunTextsPositives(cfg: Config, rowLabel: string, texts: seq<string>, draws: seq<TextDraws>, acc: Examples)
    requires RowDrawsFit(cfg, texts, draws)
    ensures var r := RunTexts(cfg, rowLabel, texts, draws, acc);
      r.Success? ==> r.value.positives == acc.positives + RowPositives(cfg, rowLabel, texts)
    decreases |texts|
  {
    if texts == [] {
      assert acc.positives + [] == acc.positives;
    } else {
      TextStepPositives(cfg, rowLabel, texts[0], draws[0], acc);
      var step := TextStep(cfg, rowLabel, texts[0], draws[0], acc);
      if step.Success? {
        RunTextsPositives(cfg, rowLabel, texts[1..], draws[1..], step.value);
        var r := RunTexts(cfg, rowLabel, texts, draws, acc);
        assert r == RunTexts(cfg, rowLabel, texts[1..], draws[1..], step.value);
        var p0 := TextPositives(cfg, rowLabel, texts[0]);
        var rest := RowPositives(cfg, rowLabel, texts[1..]);
        assert RowPositives(cfg, rowLabel, texts) == p0 + rest;
        if r.Success? {
          AppendedTwice(acc.positives, p0, rest, step.value.positives, r.value.positives);
        }
      }
    }
  }

  /** A run that does not raise has taken the positives of a first stretch of the rows,
      `k` of them, and it stops before the last row only when the lists hold more than
      `MAX_EXAMPLES` examples. */
  lemma {:induction false} RunRowsPositives(cfg: Config, blocks: seq<seq<string>>, labels: seq<string>, draws: seq<seq<TextDraws>>, acc: Examples)
    requires RowsFit(cfg, blocks, labels, draws)
    ensures var r := RunRows(cfg, blocks, labels, draws, acc);
      r.Success? ==> exists k ::
        && 0 <= k <= |blocks|
        && r.value.positives == acc.positives + RowsPositives(cfg, blocks[..k], labels[..k])
        && (k < |blocks| ==> Size(r.value) > MAX_EXAMPLES)
    decreases |blocks|
  {
    var r := RunRows(cfg, blocks, labels, draws, acc);
    if blocks == [] {
      assert r.value.positives == acc.positives + RowsPositives(cfg, blocks[..0], labels[..0]);
    } else if r.Success? {
      RunTextsPositives(cfg, labels[0], blocks[0], draws[0], acc);
      var row := RunTexts(cfg, labels[0], blocks[0], draws[0], acc);
      assert row.Success?;
      var p0 := RowPositives(cfg, labels[0], blocks[0]);
      if Size(row.value) > MAX_EXAMPLES {
        assert r == row;
        RowsPositivesPrefix(cfg, blocks, labels, 0);
        assert blocks[1..][..0] == [] && labels[1..][..0] == [];
        AppendedTwice(acc.positives, p0, [], row.value.positives, r.value.positives);
        assert r.value.positives == acc.positives + RowsPositives(cfg, blocks[..1], labels[..1]);
      } else {
        RunRowsPositives(cfg, blocks[1..], labels[1..], draws[1..], row.value);
        assert r == RunRows(cfg, blocks[1..], labels[1..], draws[1..], row.value);
        var k :| 0 <= k <= |blocks[1..]|
          && r.value.positives == row.value.positives + RowsPositives(cfg, blocks[1..][..k], labels[1..][..k])
          && (k < |blocks[1..]| ==> Size(r.value) > MAX_EXAMPLES);
        RowsPositivesPrefix(cfg, blocks, labels, k);
        AppendedTwice(acc.positives, p0, RowsPositives(cfg, blocks[1..][..k], labels[1..][..k]),
          row.value.positives, r.value.positives);
        assert r.value.positives == acc.positives + RowsPositives(cfg, blocks[..k + 1], labels[..k + 1]);
      }
    }
  }

  /** The positives of the first `k + 1` rows: those of the first row, then those of
      the next `k`. */
  lemma RowsPositivesPrefix(cfg: Config, blocks: seq<seq<string>>, labels: seq<string>, k: nat)
    requires |blocks| == |labels| && k < |blocks|
    ensures RowsPositives(cfg, blocks[..k + 1], labels[..k + 1]) ==
      RowPositives(cfg, labels[0], blocks[0]) + RowsPositives(cfg, blocks[1..][..k], labels[1..][..k])
  {
    assert blocks[..k + 1][0] == blocks[0] && labels[..k + 1][0] == labels[0];
    assert blocks[..k + 1][1..] == blocks[1..][..k] && labels[..k + 1][1..] == labels[1..][..k];
  }

  /** A run that ends with at most `MAX_EXAMPLES` examples went through every row and
      kept the positives of all of them: the cap is the only reason to stop early. */
  lemma RunRowsUnderCapPositives(cfg: Config, blocks: seq<seq<string>>, labels: seq<string>, draws: seq<seq<TextDraws>>, acc: Examples)
    requires RowsFit(cfg, blocks, labels, draws)
    ensures var r := RunRows(cfg, blocks, labels, draws, acc);
      r.Success? && Size(r.value) <= MAX_EXAMPLES ==>
        r.value.positives == acc.positives + RowsPositives(cfg, blocks, labels)
  {
    RunRowsPositives(cfg, blocks, labels, draws, acc);
    var r := RunRows(cfg, blocks, labels, draws, acc);
    if r.Success? && Size(r.value) <= MAX_EXAMPLES {
      var k :| 0 <= k <= |blocks|
        && r.value.positives == acc.positives + RowsPositives(cfg, blocks[..k], labels[..k])
        && (k < |blocks| ==> Size(r.value) > MAX_EXAMPLES);
      assert blocks[..k] == blocks && labels[..k] == labels;
    }
  }

  /** The collected examples extend the lists the loop started from, and the cap is
      overshot by at most one row: with at most `B` texts per row, a loop started below
      the cap ends with at most `MAX_EXAMPLES + 2 * B` examples. */
  lemma {:induction false} RunRowsBounded(cfg: Config, blocks: seq<seq<string>>, labels: seq<string>, draws: seq<seq<TextDraws>>, acc: Examples, B: nat)
    requires RowsFit(cfg, blocks, labels, draws)
    requires forall i :: 0 <= i < |blocks| ==> |blocks[i]| <= B
    requires Size(acc) <= MAX_EXAMPLES
    ensures var r := RunRows(cfg, blocks, labels, draws, acc);
      r.Success? ==>
        && acc.positives <= r.value.positives && acc.negatives <= r.value.negatives
        && Size(r.value) <= MAX_EXAMPLES + 2 * B
    decreases |blocks|
  {
    if blocks != [] {
      RunTextsAppends(cfg, labels[0], blocks[0], draws[0], acc);
      var row := RunTexts(cfg, labels[0], blocks[0], draws[0], acc);
      if row.Success? && Size(row.value) <= MAX_EXAMPLES {
        RunRowsBounded(cfg, blocks[1..], labels[1..], draws[1..], row.value, B);
      }
    }
  }

  /** Outside CoLA every positive brings exactly one negative, since `prob_neg < 6`
      always holds: the two lists grow by the same amount. */
  lemma {:induction false} RunTextsBalanced(cfg: Config, rowLabel: string, texts: seq<string>, draws: seq<TextDraws>, acc: Examples)
    requires cfg.sourceTask != "CoLA" && RowDrawsFit(cfg, texts, draws)
    ensures var r := RunTexts(cfg, rowLabel, texts, draws, acc);
      r.Success? ==> |r.value.positives| - |acc.positives| == |r.value.negatives| - |acc.negatives|
    decreases |texts|
  {
    if texts != [] {
      var step := TextStep(cfg, rowLabel, texts[0], draws[0], acc);
      if step.Success? {
        RunTextsBalanced(cfg, rowLabel, texts[1..], draws[1..], step.value);
      }
    }
  }

  /** The same over all rows. */
  lemma {:induction false} RunRowsBalanced(cfg: Config, blocks: seq<seq<string>>, labels: seq<string>, draws: seq<seq<TextDraws>>, acc: Examples)
    requires cfg.sourceTask != "CoLA" && RowsFit(cfg, blocks, labels, draws)
    ensures var r := RunRows(cfg, blocks, labels, draws, acc);
      r.Success? ==> |r.value.positives| - |acc.positives| == |r.value.negatives| - |acc.negatives|
    decreases |blocks|
  {
    if blocks != [] {
      RunTextsBalanced(cfg, labels[0], blocks[0], draws[0], acc);
      var row := RunTexts(cfg, labels[0], blocks[0], draws[0], acc);
      if row.Success? && Size(row.value) <= MAX_EXAMPLES {
        RunRowsBalanced(cfg, blocks[1..], labels[1..], draws[1..], row.value);
      }
    }
  }

  /** CoLA texts are taken as they are: the texts of a row labelled `1` all become
      positives, those of any other row negatives, and nothing fails. */
  lemma {:induction false} RunTextsCola(cfg: Config, rowLabel: string, texts: seq<string>, draws: seq<TextDraws>, acc: Examples)
    requires cfg.sourceTask == "CoLA" && RowDrawsFit(cfg, texts, draws)
    ensures RunTexts(cfg, rowLabel, texts, draws, acc) ==
      if rowLabel == "1" then Success(Examples(acc.positives + texts, acc.negatives))
      else Success(Examples(acc.positives, acc.negatives + texts))
    decreases |texts|
  {
    if texts != [] {
      var step := TextStep(cfg, rowLabel, texts[0], draws[0], acc);
      RunTextsCola(cfg, rowLabel, texts[1..], draws[1..], step.value);
      assert RunTexts(cfg, rowLabel, texts, draws, acc) == RunTexts(cfg, rowLabel, texts[1..], draws[1..], step.value);
      assert texts == [texts[0]] + texts[1..];
      if rowLabel == "1" {
        assert step == Success(Examples(acc.positives + [texts[0]], acc.negatives));
        assert acc.positives + texts == acc.positives + [texts[0]] + texts[1..];
      } else {
        assert step == Success(Examples(acc.positives, acc.negatives + [texts[0]]));
        assert acc.negatives + texts == acc.negatives + [texts[0]] + texts[1..];
      }
    } else {
      assert acc.positives + texts == acc.positives && acc.negatives + texts == acc.negatives;
    }
  }

  /** A CoLA run never fails. */
  lemma {:induction false} RunRowsCola(cfg: Config, blocks: seq<seq<string>>, labels: seq<string>, draws: seq<seq<TextDraws>>, acc: Examples)
    requires cfg.sourceTask == "CoLA" && RowsFit(cfg, blocks, labels, draws)
    ensures RunRows(cfg, blocks, labels, draws, acc).Success?
    decreases |blocks|
  {
    if blocks != [] {
      RunTextsCola(cfg, labels[0], blocks[0], draws[0], acc);
      var row := RunTexts(cfg, labels[0], blocks[0], draws[0], acc);
      if Size(row.value) <= MAX_EXAMPLES {
        RunRowsCola(cfg, blocks[1..], labels[1..], draws[1..], row.value);
      }
    }
  }

  /** Outside CoLA, and outside the "questions" slice, a text whose selection does not
      raise is never lost to an exception: every such slice selects at least two words,
      which `augment_negative` can always corrupt. */
  lemma TextStepSucceeds(cfg: Config, rowLabel: string, text: string, d: TextDraws, acc: Examples)
    requires cfg.sourceTask != "CoLA" && cfg.sliceType != "questions" && TextDrawsFit(cfg, text, d)
    requires SelectSentences(text, cfg.sliceType, cfg.cats, cfg.ops).Success?
    ensures TextStep(cfg, rowLabel, text, d, acc).Success?
  {
    var s := SelectSentences(text, cfg.sliceType, cfg.cats, cfg.ops);
    if s.value.Some? {
      var x := s.value.value;
      SelectedShort(text, cfg.sliceType, cfg.cats, cfg.ops, x);
      assert AugmentDrawsFit(|Words(x)|, d.negative);
      assert Augmented(x, d.negative, cfg.ops).Success?;
    }
  }

  /** A selected one-word sentence cannot be corrupted: `remove_random_words` raises
      `IndexError`, and the text ends the run. Only the "questions" slice can select one
      word, and only when a question word in its list ends in `?`. */
  lemma OneWordQuestionFails(cfg: Config, rowLabel: string, text: string, d: TextDraws, acc: Examples, x: string)
    requires cfg.sourceTask != "CoLA" && TextDrawsFit(cfg, text, d)
    requires SelectSentences(text, cfg.sliceType, cfg.cats, cfg.ops) == Success(Some(x))
    requires |Words(x)| == 1
    ensures TextStep(cfg, rowLabel, text, d, acc) == Failure(IndexError)
  {
    assert AugmentDrawsFit(|Words(x)|, d.negative);
    assert Augmented(x, d.negative, cfg.ops) == Failure(IndexError);
  }

  /** Every sentence of `xs` has at most fourteen words. */
  predicate AllShort(xs: seq<string>) {
    forall k :: 0 <= k < |xs| ==> |Words(xs[k])| < MAX_LEN
  }

  /** Outside CoLA a text adds only sentences of at most fourteen words: the selected
      sentence, and a corruption of it, which has no more words than it. */
  lemma TextStepShort(cfg: Config, rowLabel: string, text: string, d: TextDraws, acc: Examples)
    requires cfg.sourceTask != "CoLA" && TextDrawsFit(cfg, text, d) && CapitalizeKeepsWords(cfg.ops)
    requires AllShort(acc.positives) && AllShort(acc.negatives)
    ensures var r := TextStep(cfg, rowLabel, text, d, acc);
      r.Success? ==> AllShort(r.value.positives) && AllShort(r.value.negatives)
  {
    var s := SelectSentences(text, cfg.sliceType, cfg.cats, cfg.ops);
    if s.Success? && s.value.Some? {
      var x := s.value.value;
      SelectedShort(text, cfg.sliceType, cfg.cats, cfg.ops, x);
      assert AllShort(acc.positives + [x]) by {
        forall k | 0 <= k < |acc.positives| + 1 ensures |Words((acc.positives + [x])[k])| < MAX_LEN {
          if k < |acc.positives| { assert (acc.positives + [x])[k] == acc.positives[k]; }
        }
      }
      var negative := Augmented(x, d.negative, cfg.ops);
      if d.probNeg < 6 && negative.Success? {
        AugmentedWordCount(x, d.negative, cfg.ops);
        assert AllShort(acc.negatives + [negative.value]) by {
          forall k | 0 <= k < |acc.negatives| + 1 ensures |Words((acc.negatives + [negative.value])[k])| < MAX_LEN {
            if k < |acc.negatives| { assert (acc.negatives + [negative.value])[k] == acc.negatives[k]; }
          }
        }
      }
    }
  }

  /** The same over the texts of one row. */
  lemma {:induction false} RunTextsShort(cfg: Config, rowLabel: string, texts: seq<string>, draws: seq<TextDraws>, acc: Examples)
    requires cfg.sourceTask != "CoLA" && RowDrawsFit(cfg, texts, draws) && CapitalizeKeepsWords(cfg.ops)
    requires AllShort(acc.positives) && AllShort(acc.negatives)
    ensures var r := RunTexts(cfg, rowLabel, texts, draws, acc);
      r.Success? ==> AllShort(r.value.positives) && AllShort(r.value.negatives)
    decreases |texts|
  {
    if texts != [] {
      TextStepShort(cfg, rowLabel, texts[0], draws[0], acc);
      var step := TextStep(cfg, rowLabel, texts[0], draws[0], acc);
      if step.Success? {
        RunTextsShort(cfg, rowLabel, texts[1..], draws[1..], step.value);
      }
    }
  }

  /** Outside CoLA no collected example, positive or negative, has more than fourteen
      words; this holds from the empty lists the loop starts with. */
  lemma {:induction false} RunRowsShort(cfg: Config, blocks: seq<seq<string>>, labels: seq<string>, draws: seq<seq<TextDraws>>, acc: Examples)
    requires cfg.sourceTask != "CoLA" && RowsFit(cfg, blocks, labels, draws) && CapitalizeKeepsWords(cfg.ops)
    requires AllShort(acc.positives) && AllShort(acc.negatives)
    ensures var r := RunRows(cfg, blocks, labels, draws, acc);
      r.Success? ==> AllShort(r.value.positives) && AllShort(r.value.negatives)
    decreases |blocks|
  {
    if blocks != [] {
      RunTextsShort(cfg, labels[0], blocks[0], draws[0], acc);
      var row := RunTexts(cfg, labels[0], blocks[0], draws[0], acc);
      if row.Success? && Size(row.value) <= MAX_EXAMPLES {
        RunRowsShort(cfg, blocks[1..], labels[1..], draws[1..], row.value);
      }
    }
  }

  /** The loop as `main` runs it, from empty lists: outside CoLA every collected example
      has at most fourteen words. */
  lemma CollectedShort(cfg: Config, blocks: seq<seq<string>>, labels: seq<string>, draws: seq<seq<TextDraws>>)
    requires cfg.sourceTask != "CoLA" && RowsFit(cfg, blocks, labels, draws) && CapitalizeKeepsWords(cfg.ops)
    ensures var r := RunRows(cfg, blocks, labels, draws, Examples([], []));
      r.Success? ==> AllShort(r.value.positives) && AllShort(r.value.negatives)
  {
    RunRowsShort(cfg, blocks, labels, draws, Examples([], []));
  }

  /** `n` is what `augment_negative` can make of `p` for some fitting draws. */
  ghost predicate CorruptionOf(p: string, n: string, ops: CaseOps) {
    exists d :: AugmentDrawsFit(|Words(p)|, d) && Augmented(p, d, ops) == Success(n)
  }

  /** The lists are equally long, and each negative is a corruption of the positive at
      its index. */
  ghost predicate Paired(e: Examples, ops: CaseOps) {
    && |e.positives| == |e.negatives|
    && forall i :: 0 <= i < |e.positives| ==> CorruptionOf(e.positives[i], e.negatives[i], ops)
  }

  /** Outside CoLA a text keeps the pairing: it appends a selected sentence together with
      its corruption, or nothing. */
  lemma TextStepPaired(cfg: Config, rowLabel: string, text: string, d: TextDraws, acc: Examples)
    requires cfg.sourceTask != "CoLA" && TextDrawsFit(cfg, text, d) && Paired(acc, cfg.ops)
    ensures var r := TextStep(cfg, rowLabel, text, d, acc);
      r.Success? ==> Paired(r.value, cfg.ops)
  {
    var r := TextStep(cfg, rowLabel, text, d, acc);
    if r.Success? && |r.value.positives| > |acc.positives| {
      var x := r.value.positives[|acc.positives|];
      var n := r.value.negatives[|acc.negatives|];
      assert AugmentDrawsFit(|Words(x)|, d.negative);
      assert CorruptionOf(x, n, cfg.ops);
      assert r.value.positives == acc.positives + [x];
      assert r.value.negatives == acc.negatives + [n];
      forall i | 0 <= i < |r.value.positives|
        ensures CorruptionOf(r.value.positives[i], r.value.negatives[i], cfg.ops)
      {
        if i < |acc.positives| {
          assert r.value.positives[i] == acc.positives[i] && r.value.negatives[i] == acc.negatives[i];
        }
      }
    }
  }

  /** The same over the texts of one row. */
  lemma {:induction false} RunTextsPaired(cfg: Config, rowLabel: string, texts: seq<string>, draws: seq<TextDraws>, acc: Examples)
    requires cfg.sourceTask != "CoLA" && RowDrawsFit(cfg, texts, draws) && Paired(acc, cfg.ops)
    ensures var r := RunTexts(cfg, rowLabel, texts, draws, acc);
      r.Success? ==> Paired(r.value, cfg.ops)
    decreases |texts|
  {
    if texts != [] {
      TextStepPaired(cfg, rowLabel, texts[0], draws[0], acc);
      var step := TextStep(cfg, rowLabel, texts[0], draws[0], acc);
      if step.Success? {
        RunTextsPaired(cfg, rowLabel, texts[1..], draws[1..], step.value);
      }
    }
  }

  /** The same over the rows. */
  lemma {:induction false} RunRowsPaired(cfg: Config, blocks: seq<seq<string>>, labels: seq<string>, draws: seq<seq<TextDraws>>, acc: Examples)
    requires cfg.sourceTask != "CoLA" && RowsFit(cfg, blocks, labels, draws) && Paired(acc, cfg.ops)
    ensures var r := RunRows(cfg, blocks, labels, draws, acc);
      r.Success? ==> Paired(r.value, cfg.ops)
    decreases |blocks|
  {
    if blocks != [] {
      RunTextsPaired(cfg, labels[0], blocks[0], draws[0], acc);
      var row := RunTexts(cfg, labels[0], blocks[0], draws[0], acc);
      if row.Success? && Size(row.value) <= MAX_EXAMPLES {
        RunRowsPaired(cfg, blocks[1..], labels[1..], draws[1..], row.value);
      }
    }
  }

  /** The loop as `main` runs it, from empty lists: outside CoLA there are as many
      negatives as positives, and negative `i` is a corruption, by `augment_negative`
      with some fitting draws, of positive `i`. */
  lemma CollectedPaired(cfg: Config, blocks: seq<seq<string>>, labels: seq<string>, draws: seq<seq<TextDraws>>)
    requires cfg.sourceTask != "CoLA" && RowsFit(cfg, blocks, labels, draws)
    ensures var r := RunRows(cfg, blocks, labels, draws, Examples([], []));
      r.Success? ==> Paired(r.value, cfg.ops)
  {
    RunRowsPaired(cfg, blocks, labels, draws, Examples([], []));
  }

  // ---------------------------------------------------------------------------
  // Pairing for output (lines 152-154 and 225-227).

  function Min(a: nat, b: nat): nat {
    if a < b then a else b
  }

  /** A row of the CoLA-format file: source task, acceptability, the `?` placeholder,
      sentence. */
  datatype ColaRow = ColaRow(task: string, acceptable: int, mark: string, sentence: string)

  /** The rows `save_to_cola` writes: positive and negative examples alternate, one pair
      per index below the shorter list's length. */
  method SaveRows(task: string, positives: seq<string>, negatives: seq<string>) returns (rows: seq<ColaRow>)
    ensures |rows| == 2 * Min(|positives|, |negatives|)
    ensures forall i :: 0 <= i < Min(|positives|, |negatives|) ==>
      rows[2 * i] == ColaRow(task, 1, "?", positives[i]) && rows[2 * i + 1] == ColaRow(task, 0, "?", negatives[i])
  {
    rows := [];
    var i := 0;
    while i < Min(|positives|, |negatives|)
      invariant 0 <= i <= Min(|positives|, |negatives|)
      invariant |rows| == 2 * i
      invariant forall k :: 0 <= k < i ==>
        rows[2 * k] == ColaRow(task, 1, "?", positives[k]) && rows[2 * k + 1] == ColaRow(task, 0, "?", negatives[k])
    {
      rows := rows + [ColaRow(task, 1, "?", positives[i]), ColaRow(task, 0, "?", negatives[i])];
      i := i + 1;
    }
  }

  /** The lines `main` prints instead: each positive followed by ` 1`, each negative by
      ` 0`, alternating, one pair per index below the shorter list's length. */
  method PrintLines(positives: seq<string>, negatives: seq<string>) returns (lines: seq<string>)
    ensures |lines| == 2 * Min(|positives|, |negatives|)
    ensures forall i :: 0 <= i < Min(|positives|, |negatives|) ==>
      lines[2 * i] == positives[i] + " 1" && lines[2 * i + 1] == negatives[i] + " 0"
  {
    lines := [];
    var i := 0;
    while i < Min(|positives|, |negatives|)
      invariant 0 <= i <= Min(|positives|, |negatives|)
      invariant |lines| == 2 * i
      invariant forall k :: 0 <= k < i ==>
        lines[2 * k] == positives[k] + " 1" && lines[2 * k + 1] == negatives[k] + " 0"
    {
      lines := lines + [positives[i] + " 1", negatives[i] + " 0"];
      i := i + 1;
    }
  }

  /** Outside CoLA the two lists come out of the loop equally long, so pairing drops
      no example: every collected example is written. */
  lemma NonColaPairsAll(cfg: Config, blocks: seq<seq<string>>, labels: seq<string>, draws: seq<seq<TextDraws>>)
    requires cfg.sourceTask != "CoLA" && RowsFit(cfg, blocks, labels, draws)
    requires RunRows(cfg, blocks, labels, draws, Examples([], [])).Success?
    ensures var e := RunRows(cfg, blocks, labels, draws, Examples([], [])).value;
      |e.positives| == |e.negatives| && 2 * Min(|e.positives|, |e.negatives|) == Size(e)
  {
    RunRowsBalanced(cfg, blocks, labels, draws, Examples([], []));
  }

  // ---------------------------------------------------------------------------
  // The `fix` table (lines 178-188): dataset name to configuration key.

  /** The datasets the table knows. */
  const KNOWN_TASKS: set<string> := {"CoLA", "STS-B", "SST-2", "QQP", "MNLI", "QNLI", "WNLI", "MRPC", "RTE"}

  /** `fix[task]`: the configuration key of a dataset, or `KeyError` for an unknown one. */
  function TaskKey(task: string): (r: Result<string>)
    ensures r.Failure? <==> task !in KNOWN_TASKS
    ensures r.Failure? ==> r.error == KeyError
  {
    var fix := map[
      "CoLA" := "COLA",
      "STS-B" := "STSB",
      "SST-2" := "SST2",
      "QQP" := "QQP",
      "MNLI" := "MNLI",
      "QNLI" := "QNLI",
      "WNLI" := "WNLI",
      "MRPC" := "MRPC",
      "RTE" := "RTE"];
    if task in fix then Success(fix[task]) else Failure(KeyError)
  }
}
