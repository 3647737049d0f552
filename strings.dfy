/**
 * The Python `str` operations the script relies on, with the exact semantics of CPython
 * for a non-empty separator: `split(sep)`, `sep.join(parts)`, `replace(pat, repl)`,
 * `strip()`, and the word list `s.split(" ")`.
 */
module Strings {

  /** `s.split(sep)`: cut `s` at every occurrence of `sep`, found scanning left to right
      and never overlapping; empty pieces are kept. */
  function Split(s: string, sep: string): (r: seq<string>)
    requires sep != ""
    ensures |r| >= 1
    decreases |s|
  {
    if |s| < |sep| then [s]
    else if s[..|sep|] == sep then [""] + Split(s[|sep|..], sep)
    else
      var rest := Split(s[1..], sep);
      [[s[0]] + rest[0]] + rest[1..]
  }

  /** `sep.join(parts)`: the parts in order with `sep` between neighbours, so the result
      starts with the first part, followed by `sep` when another part comes. */
  function Join(parts: seq<string>, sep: string): (r: string)
    ensures |parts| >= 1 ==> parts[0] <= r
    ensures |parts| >= 2 ==> parts[0] + sep <= r
    decreases |parts|
  {
    if |parts| == 0 then ""
    else if |parts| == 1 then parts[0]
    else parts[0] + sep + Join(parts[1..], sep)
  }

  /** `s.replace(pat, repl)`: every occurrence of `pat`, found scanning left to right and
      never overlapping, becomes `repl`. A replacement as long as the pattern keeps the
      length. */
  function Replace(s: string, pat: string, repl: string): (r: string)
    requires pat != ""
    ensures |repl| == |pat| ==> |r| == |s|
    decreases |s|
  {
    if |s| < |pat| then s
    else if s[..|pat|] == pat then repl + Replace(s[|pat|..], pat, repl)
    else [s[0]] + Replace(s[1..], pat, repl)
  }

  /** The words of a sentence as the script counts them: `s.split(" ")`. */
  function Words(s: string): (ws: seq<string>)
    ensures |ws| >= 1
  {
    Split(s, " ")
  }

  /** `c.isspace()` as CPython defines it for `str.strip()`. */
  predicate IsSpace(c: char) {
    || ('\t' <= c <= '\r')
    || ('\U{1C}' <= c <= ' ')
    || c == '\U{85}' || c == '\U{A0}' || c == '\U{1680}'
    || ('\U{2000}' <= c <= '\U{200A}')
    || c == '\U{2028}' || c == '\U{2029}' || c == '\U{202F}' || c == '\U{205F}' || c == '\U{3000}'
  }

  /** The characters of `s` from `lo` up to `hi` are all whitespace. */
  predicate AllSpace(s: string, lo: int, hi: int)
    requires 0 <= lo && hi <= |s|
  {
    forall k :: lo <= k < hi ==> IsSpace(s[k])
  }

  /** `s.lstrip()`. */
  function TrimStart(s: string): (r: string)
    ensures |r| <= |s| && r == s[|s| - |r|..]
    ensures r != "" ==> !IsSpace(r[0])
    ensures AllSpace(s, 0, |s| - |r|)
    decreases |s|
  {
    if s != "" && IsSpace(s[0]) then TrimStart(s[1..]) else s
  }

  /** `s.rstrip()`. */
  function TrimEnd(s: string): (r: string)
    ensures |r| <= |s| && r == s[..|r|]
    ensures r != "" ==> !IsSpace(r[|r| - 1])
    ensures AllSpace(s, |r|, |s|)
    decreases |s|
  {
    if s != "" && IsSpace(s[|s| - 1]) then
      var r := TrimEnd(s[..|s| - 1]);
      assert forall k :: |r| <= k < |s| - 1 ==> s[k] == s[..|s| - 1][k];
      r
    else s
  }

  /** `r` is what is left of `s` after removing its first `i` characters and the
      characters after `r`, all of them whitespace. */
  predicate TrimmedAt(s: string, r: string, i: int) {
    && 0 <= i <= |s| - |r| && r == s[i..i + |r|]
    && AllSpace(s, 0, i) && AllSpace(s, i + |r|, |s|)
  }

  /** A whitespace prefix cut off `s`, then a whitespace suffix cut off the rest. */
  lemma TrimmedPieces(s: string, t: string, r: string)
    requires |t| <= |s| && t == s[|s| - |t|..] && AllSpace(s, 0, |s| - |t|)
    requires |r| <= |t| && r == t[..|r|] && AllSpace(t, |r|, |t|)
    ensures TrimmedAt(s, r, |s| - |t|)
  {
    var i := |s| - |t|;
    assert r == s[i..i + |r|];
    forall k | i + |r| <= k < |s| ensures IsSpace(s[k]) {
      assert s[k] == t[k - i];
    }
  }

  /** Trimming both ends removes only whitespace, from the front and from the back. */
  lemma TrimBothTrims(s: string)
    ensures TrimmedAt(s, TrimEnd(TrimStart(s)), |s| - |TrimStart(s)|)
  {
    var t := TrimStart(s);
    TrimmedPieces(s, t, TrimEnd(t));
  }

  /** Trimming both ends leaves nothing exactly when everything is whitespace. */
  lemma TrimBothEmpty(s: string)
    ensures var r := TrimEnd(TrimStart(s));
      && (r != "" ==> !IsSpace(r[0]) && !IsSpace(r[|r| - 1]))
      && (r == "" <==> forall k :: 0 <= k < |s| ==> IsSpace(s[k]))
  {
    var t := TrimStart(s);
    var r := TrimEnd(t);
    assert r != "" ==> r[0] == t[0];
    TrimBothTrims(s);
  }

  /** `s.strip()`: the result is the slice of `s` left after removing its leading and
      trailing whitespace. It neither starts nor ends with whitespace, and it is empty
      exactly when `s` is all whitespace. */
  function Strip(s: string): (r: string)
    ensures |r| <= |s|
    ensures exists i :: TrimmedAt(s, r, i)
    ensures r != "" ==> !IsSpace(r[0]) && !IsSpace(r[|r| - 1])
    ensures r == "" <==> forall k :: 0 <= k < |s| ==> IsSpace(s[k])
  {
    TrimBothTrims(s);
    TrimBothEmpty(s);
    TrimEnd(TrimStart(s))
  }

  /** Number of occurrences of `c` in `s`. */
  function Count(s: string, c: char): nat {
    multiset(s)[c]
  }

  // ---------------------------------------------------------------------------
  // Join and Split are inverse to each other.

  lemma {:induction false} JoinConsHead(c: char, parts: seq<string>, sep: string)
    requires |parts| >= 1
    ensures Join([[c] + parts[0]] + parts[1..], sep) == [c] + Join(parts, sep)
  {
    var q := [[c] + parts[0]] + parts[1..];
    if |parts| > 1 {
      assert q[1..] == parts[1..];
    }
  }

  /** Joining the pieces of a split with the same separator gives back the string. */
  lemma {:induction false} SplitJoin(s: string, sep: string)
    requires sep != ""
    ensures Join(Split(s, sep), sep) == s
    decreases |s|
  {
    if |s| < |sep| {
    } else if s[..|sep|] == sep {
      var rest := Split(s[|sep|..], sep);
      SplitJoin(s[|sep|..], sep);
      var parts := [""] + rest;
      assert parts[0] == "" && parts[1..] == rest && |parts| >= 2;
      assert Join(parts, sep) == "" + sep + Join(rest, sep);
      assert s == sep + s[|sep|..];
    } else {
      var rest := Split(s[1..], sep);
      SplitJoin(s[1..], sep);
      JoinConsHead(s[0], rest, sep);
      assert s == [s[0]] + s[1..];
    }
  }

  /** `s.replace(pat, repl) == repl.join(s.split(pat))`. */
  lemma {:induction false} ReplaceIsSplitJoin(s: string, pat: string, repl: string)
    requires pat != ""
    ensures Replace(s, pat, repl) == Join(Split(s, pat), repl)
    decreases |s|
  {
    if |s| < |pat| {
    } else if s[..|pat|] == pat {
      var rest := Split(s[|pat|..], pat);
      ReplaceIsSplitJoin(s[|pat|..], pat, repl);
      assert ([""] + rest)[1..] == rest;
    } else {
      var rest := Split(s[1..], pat);
      ReplaceIsSplitJoin(s[1..], pat, repl);
      JoinConsHead(s[0], rest, repl);
    }
  }

  // ---------------------------------------------------------------------------
  // Pieces of a split.

  /** `sep` occurs in `p` starting at index `i`. */
  predicate OccursAt(p: string, sep: string, i: nat) {
    i + |sep| <= |p| && p[i..i + |sep|] == sep
  }

  /** `sep in p`. */
  predicate Occurs(p: string, sep: string) {
    exists i: nat | i <= |p| :: OccursAt(p, sep, i)
  }

  /** The first piece of a split is a prefix of the string. */
  lemma {:induction false} SplitHeadIsPrefix(s: string, sep: string)
    requires sep != ""
    ensures Split(s, sep)[0] <= s
    decreases |s|
  {
    if |s| >= |sep| && s[..|sep|] != sep {
      SplitHeadIsPrefix(s[1..], sep);
    }
  }

  /** No piece of a split contains the separator. */
  lemma {:induction false} SplitPiecesAvoidSep(s: string, sep: string)
    requires sep != ""
    ensures forall k :: 0 <= k < |Split(s, sep)| ==> !Occurs(Split(s, sep)[k], sep)
    decreases |s|
  {
    var r := Split(s, sep);
    if |s| < |sep| {
      assert forall i: nat :: !OccursAt(s, sep, i);
    } else if s[..|sep|] == sep {
      SplitPiecesAvoidSep(s[|sep|..], sep);
      assert forall k :: 1 <= k < |r| ==> r[k] == Split(s[|sep|..], sep)[k - 1];
      assert forall i: nat :: !OccursAt(r[0], sep, i);
    } else {
      var rest := Split(s[1..], sep);
      SplitPiecesAvoidSep(s[1..], sep);
      assert forall k :: 1 <= k < |r| ==> r[k] == rest[k];
      var head := [s[0]] + rest[0];
      assert r[0] == head;
      forall i: nat ensures !OccursAt(head, sep, i) {
        if i == 0 {
          assert head <= s by { SplitHeadIsPrefix(s[1..], sep); }
          if |sep| <= |head| { assert head[..|sep|] == s[..|sep|]; }
        } else if i + |sep| <= |head| {
          assert head[i..i + |sep|] == rest[0][i - 1..i - 1 + |sep|];
          assert !OccursAt(rest[0], sep, i - 1);
        }
      }
    }
  }

  /** A string lacking some character of the separator is not split at all. */
  lemma {:induction false} SplitMissingChar(s: string, sep: string, c: char)
    requires c in sep && c !in s
    ensures Split(s, sep) == [s]
    decreases |s|
  {
    if |s| >= |sep| {
      assert s[..|sep|] != sep by {
        var i :| 0 <= i < |sep| && sep[i] == c;
        assert s[..|sep|][i] == s[i];
      }
      SplitMissingChar(s[1..], sep, c);
      assert [s[0]] + s[1..] == s;
    }
  }

  /** No piece of a split on one character holds that character. */
  lemma SplitPiecesLackChar(s: string, c: char)
    ensures forall k :: 0 <= k < |Split(s, [c])| ==> c !in Split(s, [c])[k]
  {
    var r := Split(s, [c]);
    SplitPiecesAvoidSep(s, [c]);
    forall k, i | 0 <= k < |r| && 0 <= i < |r[k]| ensures r[k][i] != c {
      assert !OccursAt(r[k], [c], i);
      assert r[k][i..i + 1] == [r[k][i]];
    }
  }

  /** A character that `s` does not contain is in none of its pieces. */
  lemma {:induction false} SplitKeepsAbsentChar(s: string, sep: string, c: char)
    requires sep != "" && c !in s
    ensures forall k :: 0 <= k < |Split(s, sep)| ==> c !in Split(s, sep)[k]
    decreases |s|
  {
    var r := Split(s, sep);
    if |s| < |sep| {
    } else if s[..|sep|] == sep {
      assert c !in s[|sep|..];
      SplitKeepsAbsentChar(s[|sep|..], sep, c);
      assert forall k :: 1 <= k < |r| ==> r[k] == Split(s[|sep|..], sep)[k - 1];
    } else {
      var rest := Split(s[1..], sep);
      assert c !in s[1..];
      SplitKeepsAbsentChar(s[1..], sep, c);
      assert forall k :: 1 <= k < |r| ==> r[k] == rest[k];
      assert c !in rest[0];
    }
  }

  /** Splitting on one character gives one piece more than there are occurrences. */
  lemma {:induction false} SplitCharCount(s: string, c: char)
    ensures |Split(s, [c])| == Count(s, c) + 1
    decreases |s|
  {
    if |s| < 1 {
    } else {
      assert s == [s[0]] + s[1..];
      SplitCharCount(s[1..], c);
      assert multiset(s) == multiset{s[0]} + multiset(s[1..]);
    }
  }

  /** A string without the separator is a single piece. */
  lemma {:induction false} SplitWithoutSep(w: string, c: char)
    requires c !in w
    ensures Split(w, [c]) == [w]
    decreases |w|
  {
    if w != "" {
      SplitWithoutSep(w[1..], c);
      assert [w[0]] + w[1..] == w;
    }
  }

  /** A separator-free word followed by the separator splits off as the first piece. */
  lemma {:induction false} SplitAfterWord(w: string, rest: string, c: char)
    requires c !in w
    ensures Split(w + [c] + rest, [c]) == [w] + Split(rest, [c])
    decreases |w|
  {
    var s := w + [c] + rest;
    if w == "" {
      assert s[..1] == [c];
      assert s[1..] == rest;
    } else {
      assert s[0] == w[0] && s[0] != c;
      assert s[..1] != [c];
      assert s[1..] == w[1..] + [c] + rest;
      SplitAfterWord(w[1..], rest, c);
      assert [w[0]] + w[1..] == w;
      var q := Split(s[1..], [c]);
      assert q[0] == w[1..] && q[1..] == Split(rest, [c]);
    }
  }

  /** `" ".join` is undone by `split(" ")` when no word contains the separator. */
  lemma {:induction false} JoinSplit(ws: seq<string>, c: char)
    requires |ws| >= 1
    requires forall k :: 0 <= k < |ws| ==> c !in ws[k]
    ensures Split(Join(ws, [c]), [c]) == ws
    decreases |ws|
  {
    if |ws| == 1 {
      SplitWithoutSep(ws[0], c);
    } else {
      JoinSplit(ws[1..], c);
      SplitAfterWord(ws[0], Join(ws[1..], [c]), c);
      assert [ws[0]] + ws[1..] == ws;
    }
  }

  /** Appending `d` to `s` extends the last piece of its split on `c` by `d`. */
  predicate AppendExtendsLast(s: string, d: char, c: char) {
    var r := Split(s, [c]);
    Split(s + [d], [c]) == r[..|r| - 1] + [r[|r| - 1] + [d]]
  }

  /** Appending a character other than the separator extends the last piece only. */
  lemma {:induction false} SplitAppend(s: string, d: char, c: char)
    requires d != c
    ensures var r := Split(s, [c]);
      Split(s + [d], [c]) == r[..|r| - 1] + [r[|r| - 1] + [d]]
    decreases |s|
  {
    if s == "" {
      var t := s + [d];
      assert t == [d] && t[..1] == [d] && t[1..] == "" && [d] != [c];
      var rest := Split(t[1..], [c]);
      assert rest == [""];
      assert Split(t, [c]) == [[t[0]] + rest[0]] + rest[1..];
      assert rest[0] == "" && rest[1..] == [] && [t[0]] + rest[0] == [d];
    } else {
      SplitAppend(s[1..], d, c);
      if s[0] == c {
        SplitAppendSepHead(s, d, c);
      } else {
        SplitAppendCharHead(s, d, c);
      }
    }
  }

  /** The step of `SplitAppend` for a string starting with the separator. */
  lemma SplitAppendSepHead(s: string, d: char, c: char)
    requires d != c && |s| >= 1 && s[0] == c && AppendExtendsLast(s[1..], d, c)
    ensures AppendExtendsLast(s, d, c)
  {
    var t := s + [d];
    assert s[..1] == [c] && t[..1] == [c] && t[1..] == s[1..] + [d];
    var q := Split(s[1..], [c]);
    assert Split(s, [c]) == [""] + q;
    assert Split(t, [c]) == [""] + Split(s[1..] + [d], [c]);
    assert ([""] + q)[..|q|] == [""] + q[..|q| - 1];
  }

  /** The step of `SplitAppend` for a string starting with another character. */
  lemma SplitAppendCharHead(s: string, d: char, c: char)
    requires d != c && |s| >= 1 && s[0] != c && AppendExtendsLast(s[1..], d, c)
    ensures AppendExtendsLast(s, d, c)
  {
    var t := s + [d];
    assert s[..1] != [c] && t[..1] == s[..1] && t[0] == s[0] && t[1..] == s[1..] + [d];
    var q, qt := Split(s[1..], [c]), Split(t[1..], [c]);
    var m := |q|;
    assert qt == q[..m - 1] + [q[m - 1] + [d]];
    assert Split(s, [c]) == [[s[0]] + q[0]] + q[1..];
    assert Split(t, [c]) == [[s[0]] + qt[0]] + qt[1..];
    if m == 1 {
      assert qt == [q[0] + [d]];
      assert [s[0]] + qt[0] == [s[0]] + q[0] + [d];
    } else {
      assert qt[0] == q[0] && qt[1..] == q[1..m - 1] + [q[m - 1] + [d]];
    }
  }

  // ---------------------------------------------------------------------------
  // Replacing a three-character pattern that differs from its replacement only in the middle.

  /** Index `k` of `r` holds the middle of `repl` where `s` holds the middle of an
      occurrence of `pat`. */
  predicate MiddleReplaced(s: string, r: string, k: int, pat: string, repl: string)
    requires |pat| == 3 && |repl| == 3 && |r| == |s|
  {
    0 < k < |s| - 1 && s[k - 1] == pat[0] && s[k] == pat[1] && s[k + 1] == pat[2] && r[k] == repl[1]
  }

  /** Such a replacement keeps the length, and a character changes only where it is the
      middle of an occurrence of the pattern, turning into the replacement's middle. */
  lemma {:induction false} ReplaceMiddle(s: string, pat: string, repl: string)
    requires |pat| == 3 && |repl| == 3 && repl[0] == pat[0] && repl[2] == pat[2]
    ensures |Replace(s, pat, repl)| == |s|
    ensures forall k :: 0 <= k < |s| ==> Replace(s, pat, repl)[k] == s[k] || MiddleReplaced(s, Replace(s, pat, repl), k, pat, repl)
    decreases |s|
  {
    var r := Replace(s, pat, repl);
    if |s| < 3 {
    } else if s[..3] == pat {
      var t := s[3..];
      ReplaceMiddle(t, pat, repl);
      var rt := Replace(t, pat, repl);
      assert r == repl + rt;
      forall k | 0 <= k < |s| ensures r[k] == s[k] || MiddleReplaced(s, r, k, pat, repl) {
        if k >= 3 {
          assert r[k] == rt[k - 3] && s[k] == t[k - 3];
          assert rt[k - 3] == t[k - 3] || MiddleReplaced(t, rt, k - 3, pat, repl);
          if k > 3 { assert s[k - 1] == t[k - 4]; }
          if k < |s| - 1 { assert s[k + 1] == t[k - 2]; }
        } else {
          assert s[k] == pat[k] && r[k] == repl[k];
          assert s[0] == pat[0] && s[1] == pat[1] && s[2] == pat[2];
        }
      }
    } else {
      var t := s[1..];
      ReplaceMiddle(t, pat, repl);
      var rt := Replace(t, pat, repl);
      assert r == [s[0]] + rt;
      forall k | 0 <= k < |s| ensures r[k] == s[k] || MiddleReplaced(s, r, k, pat, repl) {
        if k >= 1 {
          assert r[k] == rt[k - 1] && s[k] == t[k - 1];
          assert rt[k - 1] == t[k - 1] || MiddleReplaced(t, rt, k - 1, pat, repl);
          if k > 1 { assert s[k - 1] == t[k - 2]; }
          if k < |s| - 1 { assert s[k + 1] == t[k]; }
        }
      }
    }
  }

  /** `s.replace(pat, "")` removes every occurrence of a one-character `pat`. */
  lemma {:induction false} ReplaceDeletesChar(s: string, c: char)
    ensures c !in Replace(s, [c], "")
    decreases |s|
  {
    if |s| >= 1 {
      ReplaceDeletesChar(s[1..], c);
    }
  }

  /** A replacement introduces no character that neither `s` nor `repl` holds. */
  lemma {:induction false} ReplaceKeepsAbsentChar(s: string, pat: string, repl: string, c: char)
    requires pat != "" && c !in s && c !in repl
    ensures c !in Replace(s, pat, repl)
    decreases |s|
  {
    if |s| < |pat| {
    } else if s[..|pat|] == pat {
      assert c !in s[|pat|..];
      ReplaceKeepsAbsentChar(s[|pat|..], pat, repl, c);
    } else {
      assert c !in s[1..];
      ReplaceKeepsAbsentChar(s[1..], pat, repl, c);
    }
  }
}
