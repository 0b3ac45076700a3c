/**
 * clean_ocr_text of infer_image.py on the OCR lines, already split at line
 * breaks and stripped: drop empty and noise lines, keep the first
 * occurrence of each line, select the `max_lines` best-scoring lines in
 * their original order, glue short lines onto the previous one, join and
 * truncate to `max_chars`.
 *
 * The regular expression class `\W` is the parameter `isWord` (true for a
 * word character), and `_line_score` is the parameter `score`.
 */
module InferImage {
  import opened Text

  // --------------------------------------------------------------- noise

  const NoisePatterns: seq<string> := [
    "大家都在搜", "换一换", "广告", "立即体验", "发私信", "关注他",
    "赞同", "收藏", "分享", "评论", "热", "新", "关注者", "回答"
  ]

  /** `re.fullmatch(r"[\W_]+", line)`: a non-empty line of non-word characters and '_'. */
  predicate AllSymbols(line: string, isWord: char -> bool) {
    line != [] && forall i :: 0 <= i < |line| ==> !isWord(line[i]) || line[i] == '_'
  }

  /** Some noise pattern occurs in the line (the patterns hold no letter with a case, so IGNORECASE changes nothing). */
  predicate HasNoisePattern(line: string) {
    exists i :: 0 <= i < |NoisePatterns| && Find(line, NoisePatterns[i], 0).Some?
  }

  /** _is_noise_line. */
  predicate IsNoiseLine(line: string, isWord: char -> bool) {
    |line| <= 1 || AllSymbols(line, isWord) || HasNoisePattern(line)
  }

  /** Noise is: at most one character, only symbols, or containing a noise pattern as a substring. */
  lemma NoiseLineIff(line: string, isWord: char -> bool)
    ensures IsNoiseLine(line, isWord) <==>
      |line| <= 1 || AllSymbols(line, isWord) || exists p :: p in NoisePatterns && Contains(line, p)
  {
    if exists p :: p in NoisePatterns && Contains(line, p) {
      var p :| p in NoisePatterns && Contains(line, p);
      var i :| 0 <= i < |NoisePatterns| && NoisePatterns[i] == p;
      assert Find(line, NoisePatterns[i], 0).Some?;
    }
    if HasNoisePattern(line) {
      var i :| 0 <= i < |NoisePatterns| && Find(line, NoisePatterns[i], 0).Some?;
      assert Contains(line, NoisePatterns[i]);
    }
  }

  /** The test of the filter: a non-empty line that is not noise. */
  predicate Kept(ln: string, isWord: char -> bool) {
    ln != [] && !IsNoiseLine(ln, isWord)
  }

  /** The filter `[ln for ln in lines if ln and not _is_noise_line(ln)]`. */
  function KeepLines(lines: seq<string>, isWord: char -> bool): (r: seq<string>)
    ensures |r| <= |lines|
    ensures forall x :: x in r <==> x in lines && Kept(x, isWord)
  {
    if lines == [] then []
    else
      var rest := KeepLines(lines[..|lines| - 1], isWord);
      var ln := lines[|lines| - 1];
      assert lines == lines[..|lines| - 1] + [ln];
      if Kept(ln, isWord) then rest + [ln] else rest
  }

  /** Strictly increasing indices. */
  predicate Increasing(idx: seq<nat>) {
    forall a, b :: 0 <= a < b < |idx| ==> idx[a] < idx[b]
  }

  /**
   * Appending the last index of `xs`, or nothing, to increasing indices of
   * its other lines: the lines at the new indices are `rp`, extended by the
   * last line when it is taken.
   */
  lemma SnocIndices(xs: seq<string>, init: seq<string>, rp: seq<string>, pre: seq<nat>, take: bool) returns (idx: seq<nat>)
    requires xs != [] && init == xs[..|xs| - 1]
    requires |pre| == |rp| && Increasing(pre)
    requires forall a :: 0 <= a < |pre| ==> pre[a] < |init| && rp[a] == init[pre[a]]
    ensures idx == if take then pre + [|init|] else pre
    ensures Increasing(idx) && (|init| in idx <==> take)
    ensures forall i :: 0 <= i < |init| ==> (i in idx <==> i in pre)
    ensures var r := if take then rp + [xs[|xs| - 1]] else rp;
      |idx| == |r| && forall a :: 0 <= a < |idx| ==> idx[a] < |xs| && r[a] == xs[idx[a]]
  {
    idx := if take then pre + [|init|] else pre;
    var r := if take then rp + [xs[|xs| - 1]] else rp;
    forall a | 0 <= a < |idx|
      ensures idx[a] < |xs| && r[a] == xs[idx[a]]
    {
      if a < |pre| {
        assert idx[a] == pre[a] && r[a] == rp[a] && init[pre[a]] == xs[pre[a]];
      }
    }
  }

  /** `idx` lists, in increasing order, the indices of the lines of `lines` that pass and make up `r`. */
  predicate KeptIndices(lines: seq<string>, isWord: char -> bool, r: seq<string>, idx: seq<nat>) {
    && |idx| == |r| && Increasing(idx)
    && (forall a :: 0 <= a < |idx| ==> idx[a] < |lines| && r[a] == lines[idx[a]])
    && (forall i :: 0 <= i < |lines| ==> (i in idx <==> Kept(lines[i], isWord)))
  }

  /**
   * The filter keeps input order: its result is the input at increasing
   * indices, and an index is among them exactly when its line passes.
   */
  lemma {:induction false} KeepLinesOrder(lines: seq<string>, isWord: char -> bool) returns (idx: seq<nat>)
    ensures |idx| == |KeepLines(lines, isWord)| && Increasing(idx)
    ensures forall a :: 0 <= a < |idx| ==> idx[a] < |lines| && KeepLines(lines, isWord)[a] == lines[idx[a]]
    ensures forall i :: 0 <= i < |lines| ==> (i in idx <==> Kept(lines[i], isWord))
    decreases |lines|
  {
    if lines == [] {
      idx := [];
    } else {
      var init := lines[..|lines| - 1];
      var pre := KeepLinesOrder(init, isWord);
      idx := KeepStep(lines, isWord, init, pre);
    }
  }

  /** One more line extends the kept indices of the lines before it. */
  lemma KeepStep(lines: seq<string>, isWord: char -> bool, init: seq<string>, pre: seq<nat>) returns (idx: seq<nat>)
    requires lines != [] && init == lines[..|lines| - 1]
    requires KeptIndices(init, isWord, KeepLines(init, isWord), pre)
    ensures KeptIndices(lines, isWord, KeepLines(lines, isWord), idx)
  {
    var ln := lines[|lines| - 1];
    var ok := (x: string) => Kept(x, isWord);
    var rp := KeepLines(init, isWord);
    var r := KeepLines(lines, isWord);
    assert r == if ok(ln) then rp + [ln] else rp;
    assert forall i :: 0 <= i < |init| ==> (i in pre <==> ok(init[i]));
    idx := FilterStep(lines, init, ok, rp, r, pre);
    forall i | 0 <= i < |lines|
      ensures i in idx <==> Kept(lines[i], isWord)
    {
      assert ok(lines[i]) == Kept(lines[i], isWord);
    }
  }

  /** The index bookkeeping of a filter step, for any test `ok`. */
  lemma FilterStep(lines: seq<string>, init: seq<string>, ok: string -> bool, rp: seq<string>, r: seq<string>, pre: seq<nat>)
    returns (idx: seq<nat>)
    requires lines != [] && init == lines[..|lines| - 1]
    requires r == if ok(lines[|lines| - 1]) then rp + [lines[|lines| - 1]] else rp
    requires |pre| == |rp| && Increasing(pre)
    requires forall a :: 0 <= a < |pre| ==> pre[a] < |init| && rp[a] == init[pre[a]]
    requires forall i :: 0 <= i < |init| ==> (i in pre <==> ok(init[i]))
    ensures |idx| == |r| && Increasing(idx)
    ensures forall a :: 0 <= a < |idx| ==> idx[a] < |lines| && r[a] == lines[idx[a]]
    ensures forall i :: 0 <= i < |lines| ==> (i in idx <==> ok(lines[i]))
  {
    var ln := lines[|lines| - 1];
    idx := SnocIndices(lines, init, rp, pre, ok(ln));
    FilterMembers(lines, init, ok, pre, idx);
  }

  /** The indices that pass, from those of the lines before the last. */
  lemma FilterMembers(lines: seq<string>, init: seq<string>, ok: string -> bool, pre: seq<nat>, idx: seq<nat>)
    requires lines != [] && init == lines[..|lines| - 1]
    requires forall i :: 0 <= i < |init| ==> (i in pre <==> ok(init[i]))
    requires forall i :: 0 <= i < |init| ==> (i in idx <==> i in pre)
    requires |init| in idx <==> ok(lines[|lines| - 1])
    ensures forall i :: 0 <= i < |lines| ==> (i in idx <==> ok(lines[i]))
  {
    forall i | 0 <= i < |init|
      ensures i in idx <==> ok(lines[i])
    {
      assert lines[i] == init[i];
      assert (i in idx) == (i in pre);
    }
  }

  // -------------------------------------------------------------- dedup

  /** The lines that do not occur earlier, in order: the first occurrence of each. */
  function FirstOccurrences(xs: seq<string>): seq<string> {
    if xs == [] then []
    else
      var p := xs[..|xs| - 1];
      FirstOccurrences(p) + (if xs[|xs| - 1] in p then [] else [xs[|xs| - 1]])
  }

  /** The de-duplicated lines are those of the input, each once. */
  lemma {:induction false} FirstOccurrencesSpec(xs: seq<string>)
    ensures NoDuplicates(FirstOccurrences(xs))
    ensures forall x :: x in FirstOccurrences(xs) <==> x in xs
    decreases |xs|
  {
    if xs != [] {
      var p := xs[..|xs| - 1];
      FirstOccurrencesSpec(p);
      assert xs == p + [xs[|xs| - 1]];
    }
  }

  /** No earlier line of `xs` equals line `i`. */
  predicate FirstIndex(xs: seq<string>, i: nat)
    requires i < |xs|
  {
    forall j :: 0 <= j < i ==> xs[j] != xs[i]
  }

  /** `idx` lists, in increasing order, the first indices of `xs` whose lines make up `r`. */
  predicate FirstIndices(xs: seq<string>, r: seq<string>, idx: seq<nat>) {
    && |idx| == |r| && Increasing(idx)
    && (forall a :: 0 <= a < |idx| ==> idx[a] < |xs| && r[a] == xs[idx[a]] && FirstIndex(xs, idx[a]))
    && (forall i :: 0 <= i < |xs| ==> (i in idx <==> FirstIndex(xs, i)))
  }

  /**
   * De-duplication keeps input order and keeps each line at its first index:
   * the result is the input at increasing indices, and an index is among them
   * exactly when no earlier line equals its line.
   */
  lemma {:induction false} FirstOccurrencesOrder(xs: seq<string>) returns (idx: seq<nat>)
    ensures |idx| == |FirstOccurrences(xs)| && Increasing(idx)
    ensures forall a :: 0 <= a < |idx| ==> idx[a] < |xs| && FirstOccurrences(xs)[a] == xs[idx[a]] && FirstIndex(xs, idx[a])
    ensures forall i :: 0 <= i < |xs| ==> (i in idx <==> FirstIndex(xs, i))
    decreases |xs|
  {
    if xs == [] {
      idx := [];
    } else {
      var p := xs[..|xs| - 1];
      var pre := FirstOccurrencesOrder(p);
      idx := FirstStep(xs, p, pre);
    }
  }

  /** One more line extends the first indices of the lines before it. */
  lemma FirstStep(xs: seq<string>, p: seq<string>, pre: seq<nat>) returns (idx: seq<nat>)
    requires xs != [] && p == xs[..|xs| - 1]
    requires FirstIndices(p, FirstOccurrences(p), pre)
    ensures FirstIndices(xs, FirstOccurrences(xs), idx)
  {
    var x := xs[|xs| - 1];
    var keep := x !in p;
    assert keep <==> FirstIndex(xs, |p|);
    var rp := FirstOccurrences(p);
    var r := FirstOccurrences(xs);
    assert r == if keep then rp + [x] else rp;
    idx := SnocIndices(xs, p, rp, pre, keep);
    FirstElems(xs, p, pre, idx, keep);
    FirstMembers(xs, p, pre, idx);
  }

  /** Every listed index is a first index of `xs`. */
  lemma FirstElems(xs: seq<string>, p: seq<string>, pre: seq<nat>, idx: seq<nat>, keep: bool)
    requires xs != [] && p == xs[..|xs| - 1]
    requires forall a :: 0 <= a < |pre| ==> pre[a] < |p| && FirstIndex(p, pre[a])
    requires idx == if keep then pre + [|p|] else pre
    requires keep <==> FirstIndex(xs, |p|)
    ensures forall a :: 0 <= a < |idx| ==> idx[a] < |xs| && FirstIndex(xs, idx[a])
  {
    PrefixFirst(xs, p);
    forall a | 0 <= a < |idx|
      ensures idx[a] < |xs| && FirstIndex(xs, idx[a])
    {
      if a < |pre| {
        assert idx[a] == pre[a] && FirstIndex(p, pre[a]);
      }
    }
  }

  /** The first indices of `xs`, from those of the lines before the last. */
  lemma FirstMembers(xs: seq<string>, p: seq<string>, pre: seq<nat>, idx: seq<nat>)
    requires xs != [] && p == xs[..|xs| - 1]
    requires forall i :: 0 <= i < |p| ==> (i in pre <==> FirstIndex(p, i))
    requires forall i :: 0 <= i < |p| ==> (i in idx <==> i in pre)
    requires |p| in idx <==> FirstIndex(xs, |p|)
    ensures forall i :: 0 <= i < |xs| ==> (i in idx <==> FirstIndex(xs, i))
  {
    PrefixFirst(xs, p);
    forall i | 0 <= i < |p|
      ensures i in idx <==> FirstIndex(xs, i)
    {
      assert (i in idx) == (i in pre);
    }
  }

  /** Dropping the last line does not change which earlier indices are first ones. */
  lemma PrefixFirst(xs: seq<string>, p: seq<string>)
    requires xs != [] && p == xs[..|xs| - 1]
    ensures forall i :: 0 <= i < |p| ==> (FirstIndex(xs, i) <==> FirstIndex(p, i))
  {
    forall i | 0 <= i < |p|
      ensures FirstIndex(xs, i) <==> FirstIndex(p, i)
    {
      assert forall j :: 0 <= j <= i ==> xs[j] == p[j];
    }
  }

  /** The loop of clean_ocr_text with `seen` and `uniq`. */
  method DedupLines(lines: seq<string>) returns (uniq: seq<string>)
    ensures uniq == FirstOccurrences(lines)
  {
    var seen: set<string> := {};
    uniq := [];
    var i := 0;
    while i < |lines|
      invariant 0 <= i <= |lines|
      invariant uniq == FirstOccurrences(lines[..i])
      invariant forall x :: x in seen <==> x in lines[..i]
    {
      var ln := lines[i];
      assert lines[..i + 1][..i] == lines[..i];
      if ln !in seen {
        uniq := uniq + [ln];
        seen := seen + {ln};
      }
      assert lines[..i + 1] == lines[..i] + [ln];
      i := i + 1;
    }
    assert lines[..i] == lines;
  }

  // ---------------------------------------------------------- selection

  /**
   * Line `j` sorts before line `i` under the key (-score, index): a higher
   * score, or the same score and an earlier index.
   */
  predicate Beats(score: string -> real, u: seq<string>, j: nat, i: nat)
    requires j < |u| && i < |u|
  {
    score(u[j]) > score(u[i]) || (score(u[j]) == score(u[i]) && j < i)
  }

  /** The number of indices below `n` at which `p` holds. */
  function Count(p: nat -> bool, n: nat): (c: nat)
    ensures c <= n
  {
    if n == 0 then 0 else Count(p, n - 1) + (if p(n - 1) then 1 else 0)
  }

  /** The lines that sort before line `i`. */
  function Before(score: string -> real, u: seq<string>, i: nat): nat -> bool
    requires i < |u|
  {
    (j: nat) => j < |u| && Beats(score, u, j, i)
  }

  /** The sorted position of line `i`: how many lines sort before it. */
  function Rank(score: string -> real, u: seq<string>, i: nat): nat
    requires i < |u|
  {
    Count(Before(score, u, i), |u|)
  }

  /** How many lines `scored[:max_lines]` keeps, with Python's slice rules for a negative bound. */
  function KeepCount(maxLines: int, n: nat): (k: nat)
    ensures k <= n
  {
    if maxLines >= 0 then (if maxLines < n then maxLines else n)
    else if n + maxLines > 0 then n + maxLines else 0
  }

  predicate Picked(score: string -> real, u: seq<string>, maxLines: int, i: nat)
    requires i < |u|
  {
    Rank(score, u, i) < KeepCount(maxLines, |u|)
  }

  /** The first `upTo` lines, filtered to those picked. */
  function SelectUpTo(u: seq<string>, score: string -> real, maxLines: int, upTo: nat): seq<string>
    requires upTo <= |u|
  {
    if upTo == 0 then []
    else
      SelectUpTo(u, score, maxLines, upTo - 1)
      + (if Picked(score, u, maxLines, upTo - 1) then [u[upTo - 1]] else [])
  }

  /**
   * The two sorts and the slice: sorting by (-score, index) puts line i at
   * position Rank(i); the slice keeps the positions below the keep count;
   * sorting by index restores the original order.
   */
  function Select(u: seq<string>, score: string -> real, maxLines: int): seq<string> {
    SelectUpTo(u, score, maxLines, |u|)
  }

  /** The indices of the picked lines among the first `upTo`, ascending. */
  function PickedIndices(u: seq<string>, score: string -> real, maxLines: int, upTo: nat): seq<nat>
    requires upTo <= |u|
  {
    if upTo == 0 then []
    else
      PickedIndices(u, score, maxLines, upTo - 1)
      + (if Picked(score, u, maxLines, upTo - 1) then [upTo - 1] else [])
  }

  /**
   * The selection is the picked lines in their original order: line a of
   * the result is line idx[a] of the input, the indices ascend, and they
   * are exactly the picked ones.
   */
  lemma {:induction false} SelectInOrder(u: seq<string>, score: string -> real, maxLines: int, upTo: nat)
    requires upTo <= |u|
    ensures var idx := PickedIndices(u, score, maxLines, upTo); var r := SelectUpTo(u, score, maxLines, upTo);
      && |idx| == |r|
      && (forall a :: 0 <= a < |idx| ==> idx[a] < upTo && r[a] == u[idx[a]])
      && (forall a, b :: 0 <= a < b < |idx| ==> idx[a] < idx[b])
      && (forall i: nat :: i < upTo ==> (Picked(score, u, maxLines, i) <==> i in idx))
    decreases upTo
  {
    if upTo > 0 {
      SelectInOrder(u, score, maxLines, upTo - 1);
    }
  }

  lemma {:induction false} CountMono(p: nat -> bool, q: nat -> bool, n: nat)
    requires forall x: nat :: x < n && p(x) ==> q(x)
    ensures Count(p, n) <= Count(q, n)
    decreases n
  {
    if n > 0 {
      CountMono(p, q, n - 1);
    }
  }

  lemma {:induction false} CountStrict(p: nat -> bool, q: nat -> bool, n: nat, w: nat)
    requires forall x: nat :: x < n && p(x) ==> q(x)
    requires w < n && q(w) && !p(w)
    ensures Count(p, n) < Count(q, n)
    decreases n
  {
    if w == n - 1 {
      CountMono(p, q, n - 1);
    } else {
      CountStrict(p, q, n - 1, w);
    }
  }

  /** Beats is a strict total order on the indices. */
  lemma BeatsOrder(score: string -> real, u: seq<string>)
    ensures forall a: nat, b: nat :: a < |u| && b < |u| && Beats(score, u, a, b) ==> !Beats(score, u, b, a)
    ensures forall a: nat, b: nat, c: nat :: a < |u| && b < |u| && c < |u| && Beats(score, u, a, b) && Beats(score, u, b, c) ==>
      Beats(score, u, a, c)
    ensures forall a: nat, b: nat :: a < |u| && b < |u| && a != b ==> Beats(score, u, a, b) || Beats(score, u, b, a)
  {
  }

  /**
   * Every picked line sorts before every line left out: the kept lines are
   * those with the highest scores, ties going to the earlier line.
   */
  lemma PickedBeatsRest(u: seq<string>, score: string -> real, maxLines: int, i: nat, j: nat)
    requires i < |u| && j < |u|
    requires Picked(score, u, maxLines, i) && !Picked(score, u, maxLines, j)
    ensures Beats(score, u, i, j)
  {
    BeatsOrder(score, u);
    if !Beats(score, u, i, j) {
      // Then j sorts before i, so fewer lines sort before j than before i.
      CountStrict(Before(score, u, j), Before(score, u, i), |u|, j);
    }
  }

  /** A finite non-empty set of indices has a last element under a strict total order. */
  lemma {:induction false} Greatest(lt: (nat, nat) -> bool, p: nat -> bool, n: nat) returns (g: nat)
    requires forall a: nat, b: nat, c: nat :: a < n && b < n && c < n && lt(a, b) && lt(b, c) ==> lt(a, c)
    requires forall a: nat, b: nat :: a < n && b < n && a != b ==> lt(a, b) || lt(b, a)
    requires exists x: nat :: x < n && p(x)
    ensures g < n && p(g)
    ensures forall x: nat :: x < n && p(x) && x != g ==> lt(x, g)
    decreases n
  {
    if exists x: nat :: x < n - 1 && p(x) {
      var h := Greatest(lt, p, n - 1);
      if p(n - 1) && lt(h, n - 1) {
        g := n - 1;
      } else {
        g := h;
      }
    } else {
      g := n - 1;
    }
  }

  lemma CountOfPicked(u: seq<string>, score: string -> real, maxLines: int, upTo: nat)
    requires upTo <= |u|
    ensures |SelectUpTo(u, score, maxLines, upTo)| == Count(PickedSet(score, u, maxLines), upTo)
  {
    if upTo > 0 {
      CountOfPicked(u, score, maxLines, upTo - 1);
    }
  }

  /** The indices of the picked lines. */
  function PickedSet(score: string -> real, u: seq<string>, maxLines: int): nat -> bool {
    (x: nat) => x < |u| && Picked(score, u, maxLines, x)
  }

  /** At most the keep count is picked: the last picked line has every other picked line before it. */
  lemma PickedAtMost(u: seq<string>, score: string -> real, maxLines: int)
    ensures Count(PickedSet(score, u, maxLines), |u|) <= KeepCount(maxLines, |u|)
  {
    var n := |u|;
    var picked := PickedSet(score, u, maxLines);
    if exists x: nat :: x < n && picked(x) {
      BeatsOrder(score, u);
      var lt := (a: nat, b: nat) => a < n && b < n && Beats(score, u, a, b);
      var g := Greatest(lt, picked, n);
      CountMono((x: nat) => picked(x) && x != g, Before(score, u, g), n);
      CountRemove(picked, n, g);
    } else {
      CountNone(picked, n);
    }
  }

  /** If a line is left out, at least the keep count is picked: the first line left out has only picked lines before it. */
  lemma PickedAtLeast(u: seq<string>, score: string -> real, maxLines: int)
    requires exists x: nat :: x < |u| && !Picked(score, u, maxLines, x)
    ensures Count(PickedSet(score, u, maxLines), |u|) >= KeepCount(maxLines, |u|)
  {
    var n := |u|;
    var left := (x: nat) => x < n && !Picked(score, u, maxLines, x);
    BeatsOrder(score, u);
    var gt := (a: nat, b: nat) => a < n && b < n && Beats(score, u, b, a);
    var x0: nat :| x0 < n && !Picked(score, u, maxLines, x0);
    assert left(x0);
    var m := Greatest(gt, left, n);
    forall x: nat | x < n && Beats(score, u, x, m)
      ensures PickedSet(score, u, maxLines)(x)
    {
      assert left(x) ==> gt(x, m);
    }
    CountMono(Before(score, u, m), PickedSet(score, u, maxLines), n);
  }

  /** Selection keeps exactly as many lines as the slice `scored[:max_lines]` does. */
  lemma SelectCount(u: seq<string>, score: string -> real, maxLines: int)
    ensures |Select(u, score, maxLines)| == KeepCount(maxLines, |u|)
  {
    CountOfPicked(u, score, maxLines, |u|);
    PickedAtMost(u, score, maxLines);
    if exists x: nat :: x < |u| && !Picked(score, u, maxLines, x) {
      PickedAtLeast(u, score, maxLines);
    } else {
      CountAll(PickedSet(score, u, maxLines), |u|);
    }
  }

  lemma {:induction false} CountRemove(p: nat -> bool, n: nat, g: nat)
    requires g < n && p(g)
    ensures Count((x: nat) => p(x) && x != g, n) == Count(p, n) - 1
    decreases n
  {
    if g < n - 1 {
      CountRemove(p, n - 1, g);
    } else {
      CountSame(p, (x: nat) => p(x) && x != g, n - 1);
    }
  }

  lemma {:induction false} CountSame(p: nat -> bool, q: nat -> bool, n: nat)
    requires forall x: nat :: x < n ==> (p(x) <==> q(x))
    ensures Count(p, n) == Count(q, n)
    decreases n
  {
    if n > 0 {
      CountSame(p, q, n - 1);
    }
  }

  lemma {:induction false} CountNone(p: nat -> bool, n: nat)
    requires forall x: nat :: x < n ==> !p(x)
    ensures Count(p, n) == 0
    decreases n
  {
    if n > 0 {
      CountNone(p, n - 1);
    }
  }

  lemma {:induction false} CountAll(p: nat -> bool, n: nat)
    requires forall x: nat :: x < n ==> p(x)
    ensures Count(p, n) == n
    decreases n
  {
    if n > 0 {
      CountAll(p, n - 1);
    }
  }

  /** When the bound is at least the number of lines, every line is kept, in order. */
  lemma SelectAll(u: seq<string>, score: string -> real, maxLines: int)
    requires maxLines >= |u|
    ensures Select(u, score, maxLines) == u
  {
    forall i: nat | i < |u|
      ensures Picked(score, u, maxLines, i)
    {
      CountStrict(Before(score, u, i), (x: nat) => x < |u|, |u|, i);
      CountAll((x: nat) => x < |u|, |u|);
    }
    SelectPrefix(u, score, maxLines, |u|);
  }

  lemma {:induction false} SelectPrefix(u: seq<string>, score: string -> real, maxLines: int, upTo: nat)
    requires upTo <= |u|
    requires forall i: nat :: i < |u| ==> Picked(score, u, maxLines, i)
    ensures SelectUpTo(u, score, maxLines, upTo) == u[..upTo]
    decreases upTo
  {
    if upTo > 0 {
      SelectPrefix(u, score, maxLines, upTo - 1);
      assert u[..upTo] == u[..upTo - 1] + [u[upTo - 1]];
    }
  }

  // -------------------------------------------------------------- merge

  /** `re.search(r"[。！？:：]$", buf)`: the buffer ends a sentence or a label. */
  predicate EndsSentence(buf: string) {
    buf != [] && buf[|buf| - 1] in {'。', '！', '？', ':', '：'}
  }

  /** A line is glued onto the buffer. */
  predicate Glues(buf: string, ln: string) {
    buf != [] && |ln| <= 18 && !EndsSentence(buf)
  }

  datatype MergeState = MergeState(merged: seq<string>, buf: string)

  /** The state of the merge loop after the lines `xs`. */
  function MergeAfter(xs: seq<string>): MergeState {
    if xs == [] then MergeState([], [])
    else
      var s := MergeAfter(xs[..|xs| - 1]);
      var ln := xs[|xs| - 1];
      if Glues(s.buf, ln) then MergeState(s.merged, s.buf + ln)
      else MergeState(if s.buf != [] then s.merged + [s.buf] else s.merged, ln)
  }

  /** The merged lines: the loop's list with the last buffer flushed. */
  function Merge(xs: seq<string>): seq<string> {
    var s := MergeAfter(xs);
    if s.buf != [] then s.merged + [s.buf] else s.merged
  }

  function Concat(xs: seq<string>): string {
    if xs == [] then [] else Concat(xs[..|xs| - 1]) + xs[|xs| - 1]
  }

  lemma ConcatSnoc(xs: seq<string>, x: string)
    ensures Concat(xs + [x]) == Concat(xs) + x
  {
    assert (xs + [x])[..|xs|] == xs;
  }

  /** What the loop has seen is in its list and buffer; no list entry is empty. */
  lemma {:induction false} MergeAfterKeeps(xs: seq<string>)
    ensures Concat(MergeAfter(xs).merged) + MergeAfter(xs).buf == Concat(xs)
    ensures forall i :: 0 <= i < |MergeAfter(xs).merged| ==> MergeAfter(xs).merged[i] != []
    decreases |xs|
  {
    if xs != [] {
      var p := xs[..|xs| - 1];
      var ln := xs[|xs| - 1];
      MergeAfterKeeps(p);
      var s := MergeAfter(p);
      assert xs == p + [ln];
      ConcatSnoc(p, ln);
      if !Glues(s.buf, ln) && s.buf != [] {
        ConcatSnoc(s.merged, s.buf);
      }
    }
  }

  /** Merging loses no character and creates no empty line. */
  lemma MergeKeepsText(xs: seq<string>)
    ensures Concat(Merge(xs)) == Concat(xs)
    ensures forall i :: 0 <= i < |Merge(xs)| ==> Merge(xs)[i] != []
  {
    MergeAfterKeeps(xs);
    var s := MergeAfter(xs);
    if s.buf != [] {
      var m := s.merged + [s.buf];
      assert Merge(xs) == m;
      ConcatSnoc(s.merged, s.buf);
      assert forall i :: 0 <= i < |s.merged| ==> m[i] == s.merged[i];
    } else {
      assert Merge(xs) == s.merged;
    }
  }

  /** The merge loop of clean_ocr_text with `buf` and `merged`. */
  method MergeLines(lines: seq<string>) returns (merged: seq<string>)
    ensures merged == Merge(lines)
  {
    merged := [];
    var buf: string := [];
    var i := 0;
    while i < |lines|
      invariant 0 <= i <= |lines|
      invariant MergeAfter(lines[..i]) == MergeState(merged, buf)
    {
      var ln := lines[i];
      assert lines[..i + 1][..i] == lines[..i];
      if buf != [] && |ln| <= 18 && !EndsSentence(buf) {
        buf := buf + ln;
      } else {
        if buf != [] {
          merged := merged + [buf];
        }
        buf := ln;
      }
      i := i + 1;
    }
    assert lines[..i] == lines;
    if buf != [] {
      merged := merged + [buf];
    }
  }

  // ----------------------------------------------------- join, truncate

  /** `sep.join(xs)`. */
  function Join(xs: seq<string>, sep: string): string {
    if xs == [] then []
    else if |xs| == 1 then xs[0]
    else Join(xs[..|xs| - 1], sep) + sep + xs[|xs| - 1]
  }

  const TruncationMark: string := "\n...[已截断]"

  /** `text[:m]` with Python's slice rules. */
  function PyPrefix(text: string, m: int): (r: string)
    ensures StartsWith(text, r)
  {
    var end := if m >= 0 then (if m < |text| then m else |text|)
      else if |text| + m > 0 then |text| + m else 0;
    text[..end]
  }

  /** The final truncation to `max_chars` characters plus a mark. */
  function Truncate(text: string, maxChars: int): (r: string)
    ensures |text| <= maxChars ==> r == text
    ensures 0 <= maxChars < |text| ==> r == text[..maxChars] + TruncationMark && |r| == maxChars + |TruncationMark|
    ensures maxChars < |text| ==> EndsWith(r, TruncationMark) && StartsWith(text, r[..|r| - |TruncationMark|])
  {
    if |text| > maxChars then
      var r := PyPrefix(text, maxChars) + TruncationMark;
      assert r[..|r| - |TruncationMark|] == PyPrefix(text, maxChars);
      assert r[|r| - |TruncationMark|..] == TruncationMark;
      r
    else text
  }

  // ------------------------------------------------------ clean_ocr_text

  /** The characters at which Python's `str.splitlines` breaks a line. */
  predicate LineBreak(c: char) {
    c in {'\n', '\r', '\U{0B}', '\U{0C}', '\U{1C}', '\U{1D}', '\U{1E}', '\U{85}', '\U{2028}', '\U{2029}'}
  }

  /**
   * clean_ocr_text on lines that are already split and stripped, so that no
   * line holds a line break. The join of the picked lines and its re-split
   * are then the identity.
   */
  method CleanOcrText(lines: seq<string>, isWord: char -> bool, score: string -> real, maxLines: int, maxChars: int)
    returns (text: string)
    requires forall i, k :: 0 <= i < |lines| && 0 <= k < |lines[i]| ==> !LineBreak(lines[i][k])
    ensures text == Truncate(Join(Merge(Select(FirstOccurrences(KeepLines(lines, isWord)), score, maxLines)), "\n"), maxChars)
  {
    var kept := KeepLines(lines, isWord);
    var uniq := DedupLines(kept);
    var picked := Select(uniq, score, maxLines);
    var merged := MergeLines(picked);
    text := Truncate(Join(merged, "\n"), maxChars);
  }
}
