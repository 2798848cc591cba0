/** The hidden-Markov segmenter of HMMSegment.hpp: Viterbi decoding of non-ASCII runs, two rules for ASCII runs. */
module HMMSegment {
  import opened Wrappers
  import opened Unicode
  import opened Trie
  import opened DictTrie

  // The states; the odd ones end a word.
  const B: nat := 0
  const E: nat := 1
  const M: nat := 2
  const S: nat := 3
  const STATUS_SUM: nat := 4

  datatype HMMModel = HMMModel(startProb: seq<real>, transProb: seq<seq<real>>, emitProbVec: seq<map<Rune, real>>) {
    ghost predicate Valid() {
      && |startProb| == |transProb| == |emitProbVec| == STATUS_SUM
      && forall y :: 0 <= y < STATUS_SUM ==> |transProb[y]| == STATUS_SUM
    }

    function GetEmitProb(y: nat, key: Rune): real
      requires y < |emitProbVec|
    {
      if key in emitProbVec[y] then emitProbVec[y][key] else MIN_DOUBLE
    }

    // ----- scores of state sequences, independently of the program

    ghost predicate States(ys: seq<nat>) { forall k :: 0 <= k < |ys| ==> ys[k] < STATUS_SUM }

    /** Start, transition and emission terms, floored after each step past the first. */
    ghost function PathScore(text: seq<Rune>, ys: seq<nat>): real
      requires Valid() && 0 < |ys| <= |text| && States(ys)
    {
      var n := |ys| - 1;
      if n == 0 then startProb[ys[0]] + GetEmitProb(ys[0], text[0])
      else Max(MIN_DOUBLE, PathScore(text, ys[..n]) + transProb[ys[n - 1]][ys[n]] + GetEmitProb(ys[n], text[n]))
    }

    // ----- what the tables hold

    /** The first best predecessor among the first `count` states, E when none exceeds the floor. */
    ghost function RelaxState(prev: seq<Entry>, y: nat, emitProb: real, count: nat): (e: Entry)
      requires Valid() && |prev| == STATUS_SUM && y < STATUS_SUM && count <= STATUS_SUM
      ensures 0 <= e.path < STATUS_SUM
    {
      if count == 0 then Entry(MIN_DOUBLE, E)
      else
        var k := count - 1;
        var e := RelaxState(prev, y, emitProb, k);
        var tmp := prev[k].weight + transProb[k][y] + emitProb;
        if tmp > e.weight then Entry(tmp, k) else e
    }

    ghost function Column(text: seq<Rune>, x: nat): (col: seq<Entry>)
      requires Valid() && x < |text|
      ensures |col| == STATUS_SUM
      ensures x > 0 ==> forall y :: 0 <= y < STATUS_SUM ==> 0 <= col[y].path < STATUS_SUM
    {
      if x == 0 then
        seq(STATUS_SUM, y requires 0 <= y < STATUS_SUM => Entry(startProb[y] + GetEmitProb(y, text[0]), -1))
      else
        seq(STATUS_SUM, y requires 0 <= y < STATUS_SUM =>
          RelaxState(Column(text, x - 1), y, GetEmitProb(y, text[x]), STATUS_SUM))
    }

    /** The state sequence read off the back-pointers from state `stat` at position x. */
    ghost function Backtrack(text: seq<Rune>, x: nat, stat: nat): (ys: seq<nat>)
      requires Valid() && x < |text| && stat < STATUS_SUM
      ensures |ys| == x + 1 && States(ys) && ys[x] == stat
    {
      if x == 0 then [stat] else Backtrack(text, x - 1, Column(text, x)[stat].path) + [stat]
    }

    // ----- optimality

    lemma {:induction false} RelaxStateIsMaximum(prev: seq<Entry>, y: nat, emitProb: real, count: nat)
      requires Valid() && |prev| == STATUS_SUM && y < STATUS_SUM && count <= STATUS_SUM
      ensures var e := RelaxState(prev, y, emitProb, count);
              && e.weight >= MIN_DOUBLE
              && (forall k :: 0 <= k < count ==> prev[k].weight + transProb[k][y] + emitProb <= e.weight)
              && (e == Entry(MIN_DOUBLE, E)
                  || (e.path < count && e.weight == prev[e.path].weight + transProb[e.path][y] + emitProb))
    {
      if count > 0 {
        RelaxStateIsMaximum(prev, y, emitProb, count - 1);
      }
    }

    lemma {:induction false} NoBetterStates(text: seq<Rune>, ys: seq<nat>)
      requires Valid() && 0 < |ys| <= |text| && States(ys)
      ensures PathScore(text, ys) <= Column(text, |ys| - 1)[ys[|ys| - 1]].weight
    {
      var n := |ys| - 1;
      if n > 0 {
        NoBetterStates(text, ys[..n]);
        RelaxStateIsMaximum(Column(text, n - 1), ys[n], GetEmitProb(ys[n], text[n]), STATUS_SUM);
      }
    }

    /** Following the back-pointers attains the table's weight, also where the default E was kept. */
    lemma {:induction false} BacktrackAttains(text: seq<Rune>, x: nat, stat: nat)
      requires Valid() && x < |text| && stat < STATUS_SUM
      ensures PathScore(text, Backtrack(text, x, stat)) == Column(text, x)[stat].weight
    {
      hide PathScore, GetEmitProb;
      if x == 0 {
        FirstScore(text, stat);
      } else {
        var pre := Column(text, x)[stat].path;
        BacktrackAttains(text, x - 1, pre);
        RelaxStateIsMaximum(Column(text, x - 1), stat, GetEmitProb(stat, text[x]), STATUS_SUM);
        LastScore(text, Backtrack(text, x - 1, pre), stat);
      }
    }

    lemma FirstScore(text: seq<Rune>, stat: nat)
      requires Valid() && text != [] && stat < STATUS_SUM
      ensures PathScore(text, [stat]) == startProb[stat] + GetEmitProb(stat, text[0])
    {}

    lemma LastScore(text: seq<Rune>, ys: seq<nat>, stat: nat)
      requires Valid() && 0 < |ys| < |text| && States(ys) && stat < STATUS_SUM
      ensures PathScore(text, ys + [stat])
           == Max(MIN_DOUBLE,
                  PathScore(text, ys) + transProb[ys[|ys| - 1]][stat] + GetEmitProb(stat, text[|ys|]))
    {
      assert (ys + [stat])[..|ys|] == ys;
    }

    ghost function EndState(text: seq<Rune>): nat
      requires Valid() && text != []
    {
      var last := Column(text, |text| - 1);
      if last[E].weight >= last[S].weight then E else S
    }

    /** The state sequence that the decoder returns. */
    ghost function Decoded(text: seq<Rune>): (ys: seq<nat>)
      requires Valid() && text != []
      ensures |ys| == |text| && States(ys)
    {
      Backtrack(text, |text| - 1, EndState(text))
    }

    lemma DecodedScores(text: seq<Rune>)
      requires Valid() && text != []
      ensures var last := Column(text, |text| - 1);
              && Decoded(text)[|text| - 1] in {E, S}
              && last[E].weight <= PathScore(text, Decoded(text)) && last[S].weight <= PathScore(text, Decoded(text))
    {
      hide Column, Backtrack, PathScore;
      BacktrackAttains(text, |text| - 1, EndState(text));
    }

    /** The decoder's sequence ends a word and scores at least as much as any sequence that does. */
    lemma DecodedIsOptimal(text: seq<Rune>)
      requires Valid() && text != []
      ensures Decoded(text)[|text| - 1] in {E, S}
      ensures forall ys :: |ys| == |text| && States(ys) && ys[|text| - 1] in {E, S} ==>
                PathScore(text, ys) <= PathScore(text, Decoded(text))
    {
      hide Column, Decoded, PathScore, EndState;
      DecodedScores(text);
      forall ys | |ys| == |text| && States(ys) && ys[|text| - 1] in {E, S}
        ensures PathScore(text, ys) <= PathScore(text, Decoded(text))
      {
        NoBetterStates(text, ys);
      }
    }

    /** A state sequence that ends a word, and that no other such sequence beats. */
    ghost predicate Best(text: seq<Rune>, ys: seq<nat>)
      requires Valid() && text != []
    {
      && |ys| == |text| && States(ys) && ys[|text| - 1] in {1, 3}
      && forall zs :: |zs| == |text| && States(zs) && zs[|text| - 1] in {1, 3} ==>
           PathScore(text, zs) <= PathScore(text, ys)
    }

    lemma DecodedIsBest(text: seq<Rune>)
      requires Valid() && text != []
      ensures Best(text, Decoded(text))
    {
      hide PathScore, Decoded;
      DecodedIsOptimal(text);
    }

    // ----- the score without the floor

    /** The plain sum of start, transition and emission terms. */
    ghost function TermSum(text: seq<Rune>, ys: seq<nat>): real
      requires Valid() && 0 < |ys| <= |text| && States(ys)
    {
      var n := |ys| - 1;
      var emit := emitProbVec[ys[n]];
      (if n == 0 then startProb[ys[0]] else TermSum(text, ys[..n]) + transProb[ys[n - 1]][ys[n]])
      + (if text[n] in emit then emit[text[n]] else -3.14e100)
    }

    /** No sum of the first terms falls below the floor. */
    ghost predicate AboveFloor(text: seq<Rune>, ys: seq<nat>)
      requires Valid() && 0 < |ys| <= |text| && States(ys)
    {
      |ys| > 1 ==> TermSum(text, ys) >= -3.14e100 && AboveFloor(text, ys[..|ys| - 1])
    }

    /** A score is never below the plain sum, and it is the plain sum if that never falls below the floor. */
    lemma {:induction false} ScoreIsSum(text: seq<Rune>, ys: seq<nat>)
      requires Valid() && 0 < |ys| <= |text| && States(ys)
      ensures PathScore(text, ys) >= TermSum(text, ys)
      ensures AboveFloor(text, ys) ==> PathScore(text, ys) == TermSum(text, ys)
    {
      if |ys| > 1 {
        ScoreIsSum(text, ys[..|ys| - 1]);
      }
    }

    // ----- the program

    /** The entry of state y at position x in the two tables, stored flat, state by state. */
    ghost predicate Holds(text: seq<Rune>, weight: seq<real>, path: seq<int>, x: nat, y: nat)
      requires Valid() && x < |text| && y < STATUS_SUM
    {
      && |weight| == |path| == |text| * STATUS_SUM
      && weight[At(x, y, |text|)] == Column(text, x)[y].weight
      && path[At(x, y, |text|)] == Column(text, x)[y].path
    }

    ghost predicate ColumnHolds(text: seq<Rune>, weight: seq<real>, path: seq<int>, x: nat)
      requires Valid() && x < |text|
    {
      forall y :: 0 <= y < STATUS_SUM ==> Holds(text, weight, path, x, y)
    }

    /** Writing the entry of (x, y) disturbs no other entry. */
    lemma OthersHold(text: seq<Rune>, w0: seq<real>, p0: seq<int>, w1: seq<real>, p1: seq<int>, x: nat, y: nat)
      requires Valid() && x < |text| && y < STATUS_SUM && |w0| == |p0| == |w1| == |p1| == |text| * STATUS_SUM
      requires w1 == w0[At(x, y, |text|) := w1[At(x, y, |text|)]]
      requires p1 == p0[At(x, y, |text|) := p1[At(x, y, |text|)]]
      ensures forall a :: 0 <= a < |text| && a != x && ColumnHolds(text, w0, p0, a) ==> ColumnHolds(text, w1, p1, a)
      ensures forall b :: 0 <= b < STATUS_SUM && b != y && Holds(text, w0, p0, x, b) ==> Holds(text, w1, p1, x, b)
    {
      hide At;
      AtInjective(|text|);
      forall a, b | 0 <= a < |text| && 0 <= b < STATUS_SUM && (a != x || b != y) && Holds(text, w0, p0, a, b)
        ensures Holds(text, w1, p1, a, b)
      {
        assert At(a, b, |text|) != At(x, y, |text|);
      }
      forall a | 0 <= a < |text| && a != x && ColumnHolds(text, w0, p0, a)
        ensures ColumnHolds(text, w1, p1, a)
      {
        forall b | 0 <= b < STATUS_SUM
          ensures Holds(text, w1, p1, a, b)
        {
          assert Holds(text, w0, p0, a, b);
        }
      }
    }

    method Viterbi(runes: seq<RuneStr>, begin: nat, end: nat) returns (status: array<nat>)
      requires Valid() && begin < end <= |runes|
      ensures fresh(status) && status[..] == Decoded(Text(runes, begin, end))
    {
      ghost var text := Text(runes, begin, end);
      var X := end - begin;
      var path := new int[X * STATUS_SUM](_ => 0);
      var weight := new real[X * STATUS_SUM](_ => 0.0);
      FillTables(runes, begin, end, weight, path);

      ghost var last := X - 1;
      assert ColumnHolds(text, weight[..], path[..], last);
      assert Holds(text, weight[..], path[..], last, E) && Holds(text, weight[..], path[..], last, S);
      var endE := weight[At(X - 1, E, X)];
      var endS := weight[At(X - 1, S, X)];
      var stat: int := 0;
      if endE >= endS {
        stat := E;
      } else {
        stat := S;
      }
      assert stat == EndState(text);
      status := ReadBack(text, weight[..], path, X, stat);
    }

    lemma BacktrackStep(text: seq<Rune>, x: nat, stat: nat, done: seq<nat>)
      requires Valid() && x < |text| && stat < STATUS_SUM
      ensures x == 0 ==> Backtrack(text, x, stat) + done == [stat] + done
      ensures x > 0 ==>
                && Column(text, x)[stat].path < STATUS_SUM
                && Backtrack(text, x, stat) + done
                   == Backtrack(text, x - 1, Column(text, x)[stat].path) + ([stat] + done)
    {
      if x > 0 {
        Assoc(Backtrack(text, x - 1, Column(text, x)[stat].path), [stat], done);
      }
    }

    lemma PathAt(text: seq<Rune>, weight: seq<real>, p: seq<int>, x: nat, stat: nat)
      requires Valid() && x < |text| && stat < STATUS_SUM && ColumnHolds(text, weight, p, x)
      ensures At(x, stat, |text|) < |p| && p[At(x, stat, |text|)] == Column(text, x)[stat].path
    {
      assert Holds(text, weight, p, x, stat);
    }

    /** The backward pass over the back-pointers. */
    method ReadBack(ghost text: seq<Rune>, ghost weight: seq<real>, path: array<int>, X: nat, endStat: nat)
      returns (status: array<nat>)
      requires Valid() && text != [] && X == |text| && endStat < STATUS_SUM && path.Length == X * STATUS_SUM
      requires forall x :: 0 <= x < X ==> ColumnHolds(text, weight, path[..], x)
      ensures fresh(status) && status[..] == Backtrack(text, X - 1, endStat)
    {
      hide At, Backtrack, Column, Holds, ColumnHolds;
      ghost var p := path[..];
      status := new nat[X](_ => 0);
      var x := X - 1;
      var stat: int := endStat;
      assert status[x + 1..] == [];
      while x >= 0
        invariant -1 <= x < X
        invariant x >= 0 ==> 0 <= stat < STATUS_SUM
        invariant x >= 0 ==> Backtrack(text, X - 1, endStat) == Backtrack(text, x, stat) + status[x + 1..]
        invariant x == -1 ==> Backtrack(text, X - 1, endStat) == status[..]
        invariant path[..] == p
      {
        PathAt(text, weight, p, x, stat);
        ghost var done := status[x + 1..];
        status[x] := stat;
        assert status[x..] == [stat] + done;
        assert status[0..] == status[..];
        BacktrackStep(text, x, stat, done);
        stat := path[At(x, stat, X)];
        x := x - 1;
      }
    }

    /** The forward pass: every column of both tables. */
    method FillTables(runes: seq<RuneStr>, begin: nat, end: nat, weight: array<real>, path: array<int>)
      requires Valid() && begin < end <= |runes| && weight.Length == path.Length == (end - begin) * STATUS_SUM
      modifies weight, path
      ensures forall x :: 0 <= x < end - begin ==> ColumnHolds(Text(runes, begin, end), weight[..], path[..], x)
    {
      hide At;
      ghost var text := Text(runes, begin, end);
      var X := end - begin;
      for y := 0 to STATUS_SUM
        invariant forall b :: 0 <= b < y ==> Holds(text, weight[..], path[..], 0, b)
      {
        var w := startProb[y] + GetEmitProb(y, runes[begin].rune);
        ghost var w0, p0 := weight[..], path[..];
        weight[At(0, y, X)] := w;
        path[At(0, y, X)] := -1;
        OthersHold(text, w0, p0, weight[..], path[..], 0, y);
      }
      assert ColumnHolds(text, weight[..], path[..], 0);
      for x := 1 to X
        invariant forall a :: 0 <= a < x ==> ColumnHolds(text, weight[..], path[..], a)
      {
        for y := 0 to STATUS_SUM
          invariant forall a :: 0 <= a < x ==> ColumnHolds(text, weight[..], path[..], a)
          invariant forall b :: 0 <= b < y ==> Holds(text, weight[..], path[..], x, b)
        {
          var emitProb := GetEmitProb(y, runes[begin + x].rune);
          ghost var w0, p0 := weight[..], path[..];
          FillEntry(text, weight, path, x, y, emitProb);
          OthersHold(text, w0, p0, weight[..], path[..], x, y);
        }
        assert ColumnHolds(text, weight[..], path[..], x);
      }
    }

    /** The innermost loop: the entry of state y at position x from the previous column. */
    method FillEntry(ghost text: seq<Rune>, weight: array<real>, path: array<int>, x: nat, y: nat, emitProb: real)
      requires Valid() && 0 < x && x < |text| && y < STATUS_SUM
      requires weight.Length == path.Length == |text| * STATUS_SUM
      requires emitProb == GetEmitProb(y, text[x]) && ColumnHolds(text, weight[..], path[..], x - 1)
      modifies weight, path
      ensures Holds(text, weight[..], path[..], x, y)
      ensures weight[..] == old(weight[..])[At(x, y, |text|) := weight[At(x, y, |text|)]]
      ensures path[..] == old(path[..])[At(x, y, |text|) := path[At(x, y, |text|)]]
    {
      hide At;
      var X := weight.Length / STATUS_SUM;
      AtInjective(X);
      var now := At(x, y, X);
      ghost var prev := Column(text, x - 1);
      ghost var w0, p0, last := weight[..], path[..], x - 1;
      assert forall k :: 0 <= k < STATUS_SUM ==> Holds(text, w0, p0, last, k);
      weight[now] := MIN_DOUBLE;
      path[now] := E;
      for preY := 0 to STATUS_SUM
        invariant weight[..] == w0[now := weight[now]] && path[..] == p0[now := path[now]]
        invariant Entry(weight[now], path[now]) == RelaxState(prev, y, emitProb, preY)
      {
        var before := At(x - 1, preY, X);
        assert Holds(text, w0, p0, last, preY);
        assert before != now && weight[before] == weight[..][before] == w0[before];
        var tmp := weight[before] + transProb[preY][y] + emitProb;
        if tmp > weight[now] {
          weight[now] := tmp;
          path[now] := preY;
        }
      }
    }
  }

  datatype Entry = Entry(weight: real, path: int)

  /** Flat index of state y at position x in a table of width X. */
  function At(x: nat, y: nat, X: nat): (at: nat)
    requires x < X && y < STATUS_SUM
    ensures at == x + y * X && at < X * STATUS_SUM
  {
    if y == 0 then x else if y == 1 then x + X else if y == 2 then x + 2 * X else x + 3 * X
  }

  lemma AtInjective(X: nat)
    ensures forall a, b, c, d | 0 <= a < X && 0 <= c < X && 0 <= b < STATUS_SUM && 0 <= d < STATUS_SUM ::
              At(a, b, X) == At(c, d, X) ==> a == c && b == d
  {}

  // ----- cutting a range of runes

  predicate IsAscii(x: Rune) { x < 0x80 }

  predicate NonAscii(x: Rune) { x >= 0x80 }

  predicate IsLetter(x: Rune) { ('a' as Rune <= x <= 'z' as Rune) || ('A' as Rune <= x <= 'Z' as Rune) }

  predicate IsDigit(x: Rune) { '0' as Rune <= x <= '9' as Rune }

  predicate IsLetterOrDigit(x: Rune) { IsLetter(x) || IsDigit(x) }

  predicate IsDigitOrDot(x: Rune) { IsDigit(x) || x == '.' as Rune }

  /** The end of the token that starts with the ASCII rune at i: a word, a number, or that rune alone. */
  function AsciiEnd(runes: seq<RuneStr>, i: nat, end: nat): (r: nat)
    requires i < end <= |runes| && IsAscii(runes[i].rune)
    ensures i < r <= end
  {
    if IsLetter(runes[i].rune) then RunEnd(IsLetterOrDigit, runes, i + 1, end)
    else if IsDigit(runes[i].rune) then RunEnd(IsDigitOrDot, runes, i + 1, end)
    else i + 1
  }

  method SequentialLetterRule(runes: seq<RuneStr>, start: nat, end: nat) returns (begin: nat)
    requires start < end <= |runes|
    ensures begin == if IsLetter(runes[start].rune) then RunEnd(IsLetterOrDigit, runes, start + 1, end) else start
  {
    begin := start;
    var x := runes[begin].rune;
    if IsLetter(x) {
      begin := begin + 1;
    } else {
      return;
    }
    while begin != end
      invariant start < begin <= end
      invariant RunEnd(IsLetterOrDigit, runes, start + 1, end) == RunEnd(IsLetterOrDigit, runes, begin, end)
      decreases end - begin
    {
      x := runes[begin].rune;
      if IsLetter(x) || IsDigit(x) {
        begin := begin + 1;
      } else {
        break;
      }
    }
  }

  method NumbersRule(runes: seq<RuneStr>, start: nat, end: nat) returns (begin: nat)
    requires start < end <= |runes|
    ensures begin == if IsDigit(runes[start].rune) then RunEnd(IsDigitOrDot, runes, start + 1, end) else start
  {
    begin := start;
    var x := runes[begin].rune;
    if IsDigit(x) {
      begin := begin + 1;
    } else {
      return;
    }
    while begin != end
      invariant start < begin <= end
      invariant RunEnd(IsDigitOrDot, runes, start + 1, end) == RunEnd(IsDigitOrDot, runes, begin, end)
      decreases end - begin
    {
      x := runes[begin].rune;
      if IsDigit(x) || x == '.' as Rune {
        begin := begin + 1;
      } else {
        break;
      }
    }
  }

  /** The ranges closed by the odd states from position i on, when the open word started at left. */
  ghost function StatusRanges(status: seq<nat>, i: nat, left: nat, begin: nat): seq<WordRange>
    requires i <= |status|
    decreases |status| - i
  {
    if i == |status| then []
    else if status[i] % 2 == 1 then
      [WordRange(left, begin + i)] + StatusRanges(status, i + 1, begin + i + 1, begin)
    else StatusRanges(status, i + 1, left, begin)
  }

  /** No tail is dropped when the last state is odd. */
  lemma {:induction false} StatusRangesTile(status: seq<nat>, i: nat, left: nat, begin: nat)
    requires status != [] && status[|status| - 1] % 2 == 1 && i <= |status|
    requires if i == |status| then left == begin + i else left <= begin + i
    ensures Tiles(StatusRanges(status, i, left, begin), left, begin + |status|)
    decreases |status| - i
  {
    if i < |status| {
      var rest := if status[i] % 2 == 1 then begin + i + 1 else left;
      StatusRangesTile(status, i + 1, rest, begin);
      if status[i] % 2 == 1 {
        var all := StatusRanges(status, i, left, begin);
        assert all[1..] == StatusRanges(status, i + 1, rest, begin);
        TilesOrdered(all[1..], rest, begin + |status|);
      }
    }
  }

  /** Some range ends at position p. */
  ghost predicate EndsAt(wrs: seq<WordRange>, p: int) { exists r :: 0 <= r < |wrs| && wrs[r].right == p }

  lemma EndsSum(a: seq<WordRange>, b: seq<WordRange>, p: int)
    ensures EndsAt(a + b, p) <==> EndsAt(a, p) || EndsAt(b, p)
  {
    if EndsAt(a, p) {
      var r :| 0 <= r < |a| && a[r].right == p;
      assert (a + b)[r].right == p;
    }
    if EndsAt(b, p) {
      var r :| 0 <= r < |b| && b[r].right == p;
      assert (a + b)[|a| + r].right == p;
    }
  }

  /** Of two adjacent covers each has the ends inside its own part. */
  lemma EndsSplit(a: seq<WordRange>, b: seq<WordRange>, lo: nat, mid: nat, hi: nat, p: int)
    requires Tiles(a, lo, mid) && Tiles(b, mid, hi)
    ensures EndsAt(a + b, p) <==> if p < mid then EndsAt(a, p) else EndsAt(b, p)
  {
    TilesOrdered(a, lo, mid);
    TilesOrdered(b, mid, hi);
    EndsSum(a, b, p);
  }

  lemma {:induction false} StatusRangesEnd(status: seq<nat>, i: nat, left: nat, begin: nat, k: nat)
    requires i <= |status| && k < |status|
    ensures EndsAt(StatusRanges(status, i, left, begin), begin + k) <==> i <= k && status[k] % 2 == 1
    decreases |status| - i
  {
    hide EndsAt;
    if i < |status| {
      var rest := StatusRanges(status, i + 1, if status[i] % 2 == 1 then begin + i + 1 else left, begin);
      StatusRangesEnd(status, i + 1, if status[i] % 2 == 1 then begin + i + 1 else left, begin, k);
      if status[i] % 2 == 1 {
        EndsSum([WordRange(left, begin + i)], rest, begin + k);
        EndsOne(WordRange(left, begin + i), begin + k);
      }
    } else {
      NoEnds(begin + k);
    }
  }

  lemma EndsOne(wr: WordRange, p: int)
    ensures EndsAt([wr], p) <==> wr.right == p
  {
    assert [wr][0] == wr;
  }

  lemma NoEnds(p: int)
    ensures !EndsAt([], p)
  {}

  /** The run [a, b) is cut behind the states E and S of a best state sequence, and nowhere else. */
  ghost predicate RunCut(m: HMMModel, runes: seq<RuneStr>, wrs: seq<WordRange>, a: nat, b: nat)
    requires m.Valid() && a < b <= |runes|
  {
    exists ys :: m.Best(Text(runes, a, b), ys) && EndsMark(ys, wrs, a)
  }

  ghost predicate EndsMark(ys: seq<nat>, wrs: seq<WordRange>, a: nat) {
    forall k :: 0 <= k < |ys| ==> (EndsAt(wrs, a + k) <==> ys[k] in {1, 3})
  }

  lemma RunRangesCut(m: HMMModel, runes: seq<RuneStr>, i: nat, j: nat)
    requires m.Valid() && i < j <= |runes|
    ensures RunCut(m, runes, RunRanges(m, runes, i, j), i, j)
  {
    hide HMMModel.Best, EndsAt, StatusRanges;
    var ys := m.Decoded(Text(runes, i, j));
    m.DecodedIsBest(Text(runes, i, j));
    forall k | 0 <= k < |ys|
      ensures EndsAt(RunRanges(m, runes, i, j), i + k) <==> ys[k] in {1, 3}
    {
      StatusRangesEnd(ys, 0, i, i, k);
    }
    assert EndsMark(ys, RunRanges(m, runes, i, j), i);
  }

  /** The ranges of the non-ASCII run [i, j). */
  ghost function RunRanges(m: HMMModel, runes: seq<RuneStr>, i: nat, j: nat): seq<WordRange>
    requires m.Valid() && i < j <= |runes|
  {
    StatusRanges(m.Decoded(Text(runes, i, j)), 0, i, i)
  }

  lemma RunRangesTile(m: HMMModel, runes: seq<RuneStr>, i: nat, j: nat)
    requires m.Valid() && i < j <= |runes|
    ensures Tiles(RunRanges(m, runes, i, j), i, j)
  {
    m.DecodedIsOptimal(Text(runes, i, j));
    StatusRangesTile(m.Decoded(Text(runes, i, j)), 0, i, i);
  }

  method InternalCut(m: HMMModel, runes: seq<RuneStr>, begin: nat, end: nat, words: seq<WordRange>)
    returns (res: seq<WordRange>)
    requires m.Valid() && begin < end <= |runes|
    ensures res == words + RunRanges(m, runes, begin, end)
    ensures Tiles(res[|words|..], begin, end) && RunCut(m, runes, res[|words|..], begin, end)
  {
    hide RunCut, HMMModel.Decoded;
    var status := m.Viterbi(runes, begin, end);
    ghost var all := status[..];
    res := words;
    var left: nat := begin;
    for i := 0 to status.Length
      invariant res + StatusRanges(all, i, left, begin) == words + StatusRanges(all, 0, begin, begin)
    {
      if status[i] % 2 == 1 {
        var right := begin + i + 1;
        res := res + [WordRange(left, right - 1)];
        left := right;
      }
    }
    RunRangesTile(m, runes, begin, end);
    RunRangesCut(m, runes, begin, end);
    assert res == words + RunRanges(m, runes, begin, end);
  }

  /** The ranges of the first token or non-ASCII run at i, and where it ends. */
  ghost function HeadEnd(runes: seq<RuneStr>, i: nat, end: nat): (j: nat)
    requires i < end <= |runes|
    ensures i < j <= end
  {
    if IsAscii(runes[i].rune) then AsciiEnd(runes, i, end) else RunEnd(NonAscii, runes, i, end)
  }

  ghost function HeadRanges(m: HMMModel, runes: seq<RuneStr>, i: nat, end: nat): seq<WordRange>
    requires m.Valid() && i < end <= |runes|
  {
    var j := HeadEnd(runes, i, end);
    if IsAscii(runes[i].rune) then [WordRange(i, j - 1)]
    else RunRanges(m, runes, i, j)
  }

  /** The ranges of [i, end): ASCII tokens alone, maximal non-ASCII runs cut by the decoded states. */
  ghost function HmmRanges(m: HMMModel, runes: seq<RuneStr>, i: nat, end: nat): seq<WordRange>
    requires m.Valid() && i <= end <= |runes|
    decreases end - i
  {
    if i == end then []
    else HeadRanges(m, runes, i, end) + HmmRanges(m, runes, HeadEnd(runes, i, end), end)
  }

  /** The body of the do-while: word rule, then number rule, then a single rune. */
  method AsciiToken(runes: seq<RuneStr>, left: nat, end: nat) returns (right: nat)
    requires left < end <= |runes| && IsAscii(runes[left].rune)
    ensures right == AsciiEnd(runes, left, end)
  {
    right := SequentialLetterRule(runes, left, end);
    if right != left {
      return;
    }
    right := NumbersRule(runes, left, end);
    if right != left {
      return;
    }
    right := right + 1;
  }

  /** What is already emitted followed by what the rest will emit. */
  ghost function Total(m: HMMModel, runes: seq<RuneStr>, left: nat, end: nat, res: seq<WordRange>): seq<WordRange>
    requires m.Valid() && left <= end <= |runes|
  {
    res + HmmRanges(m, runes, left, end)
  }

  /** A pending non-ASCII run [left, right) is the head of the rest. */
  lemma PendingRun(m: HMMModel, runes: seq<RuneStr>, left: nat, right: nat, end: nat, words: seq<WordRange>)
    requires m.Valid() && left < right <= end <= |runes|
    requires right == RunEnd(NonAscii, runes, left, end)
    ensures Total(m, runes, left, end, words) == Total(m, runes, right, end, words + RunRanges(m, runes, left, right))
  {}

  lemma NextToken(m: HMMModel, runes: seq<RuneStr>, left: nat, end: nat, words: seq<WordRange>)
    requires m.Valid() && left < end <= |runes| && IsAscii(runes[left].rune)
    ensures var right := AsciiEnd(runes, left, end);
            Total(m, runes, left, end, words) == Total(m, runes, right, end, words + [WordRange(left, right - 1)])
  {}

  /** The pending non-ASCII run, if there is one, is cut by the model. */
  method Flush(m: HMMModel, runes: seq<RuneStr>, left: nat, right: nat, ghost end: nat, words: seq<WordRange>)
    returns (res: seq<WordRange>)
    requires m.Valid() && left <= right <= end <= |runes|
    requires right == RunEnd(NonAscii, runes, left, end)
    ensures Total(m, runes, right, end, res) == Total(m, runes, left, end, words)
  {
    res := words;
    if left != right {
      PendingRun(m, runes, left, right, end, words);
      res := InternalCut(m, runes, left, right, words);
    }
  }

  /** The body of the loop at an ASCII rune: the pending run, then one token. */
  method FlushAndToken(m: HMMModel, runes: seq<RuneStr>, left: nat, right: nat, end: nat, words: seq<WordRange>)
    returns (res: seq<WordRange>, next: nat)
    requires m.Valid() && left <= right < end <= |runes| && IsAscii(runes[right].rune)
    requires RunEnd(NonAscii, runes, left, end) == RunEnd(NonAscii, runes, right, end)
    ensures right < next <= end && Total(m, runes, next, end, res) == Total(m, runes, left, end, words)
  {
    hide Total, HmmRanges, AsciiEnd;
    assert !NonAscii(runes[right].rune);
    res := Flush(m, runes, left, right, end, words);
    NextToken(m, runes, right, end, res);
    next := AsciiToken(runes, right, end);
    res := res + [WordRange(right, next - 1)];
  }

  method Cut(m: HMMModel, runes: seq<RuneStr>, begin: nat, end: nat, words: seq<WordRange>)
    returns (res: seq<WordRange>)
    requires m.Valid() && begin <= end <= |runes|
    ensures res == words + HmmRanges(m, runes, begin, end)
    ensures ModelCut(m, runes, res[|words|..], begin, end)
  {
    hide Total, HmmRanges, AsciiEnd, ModelCut;
    ghost var total := Total(m, runes, begin, end, words);
    res := words;
    var left: nat, right: nat := begin, begin;
    while right != end
      invariant begin <= left <= right <= end
      invariant RunEnd(NonAscii, runes, left, end) == RunEnd(NonAscii, runes, right, end)
      invariant Total(m, runes, left, end, res) == total
      decreases end - right
    {
      if runes[right].rune < 0x80 {
        res, right := FlushAndToken(m, runes, left, right, end, res);
        left := right;
      } else {
        right := right + 1;
      }
    }
    res := Flush(m, runes, left, right, end, res);
    TotalAtEnd(m, runes, begin, end, words, res);
    HmmRangesCut(m, runes, begin, end);
  }

  lemma TotalAtEnd(m: HMMModel, runes: seq<RuneStr>, begin: nat, end: nat, words: seq<WordRange>, res: seq<WordRange>)
    requires m.Valid() && begin <= end <= |runes|
    requires Total(m, runes, end, end, res) == Total(m, runes, begin, end, words)
    ensures res == words + HmmRanges(m, runes, begin, end)
  {}

  /** The runes behind the first one satisfy p, and the range is as long as possible. */
  ghost predicate Longest(p: Rune -> bool, runes: seq<RuneStr>, wr: WordRange, end: nat)
    requires wr.left <= wr.right < end <= |runes|
  {
    && (forall k :: wr.left < k <= wr.right ==> p(runes[k].rune))
    && (wr.right + 1 < end ==> !p(runes[wr.right + 1].rune))
  }

  /** Behind a letter all letters and digits, behind a digit all digits and dots, and any other rune alone. */
  ghost predicate IsToken(runes: seq<RuneStr>, wr: WordRange, end: nat)
    requires wr.left <= wr.right < end <= |runes|
  {
    var x := runes[wr.left].rune;
    && IsAscii(x)
    && if IsLetter(x) then Longest(IsLetterOrDigit, runes, wr, end)
       else if IsDigit(x) then Longest(IsDigitOrDot, runes, wr, end)
       else wr.left == wr.right
  }

  lemma AsciiEndToken(runes: seq<RuneStr>, i: nat, end: nat)
    requires i < end <= |runes| && IsAscii(runes[i].rune)
    ensures var j := AsciiEnd(runes, i, end);
            IsToken(runes, WordRange(i, j - 1), end) && forall k :: i <= k < j ==> IsAscii(runes[k].rune)
  {
    var j := AsciiEnd(runes, i, end);
    RunEndIsMaximal(IsLetterOrDigit, runes, i + 1, j, end);
    RunEndIsMaximal(IsDigitOrDot, runes, i + 1, j, end);
  }

  /** One output range: all non-ASCII, or exactly one ASCII token. */
  ghost predicate PureRange(runes: seq<RuneStr>, wr: WordRange, end: nat)
    requires wr.left <= wr.right < end <= |runes|
  {
    || (forall k :: wr.left <= k <= wr.right ==> NonAscii(runes[k].rune))
    || IsToken(runes, wr, end)
  }

  lemma HeadPartition(m: HMMModel, runes: seq<RuneStr>, i: nat, end: nat)
    requires m.Valid() && i < end <= |runes|
    ensures var head := HeadRanges(m, runes, i, end);
            Tiles(head, i, HeadEnd(runes, i, end)) && AllPure(runes, head, end)
  {
    hide RunRanges, AsciiEnd, IsToken;
    var j := HeadEnd(runes, i, end);
    var head := HeadRanges(m, runes, i, end);
    if IsAscii(runes[i].rune) {
      AsciiEndToken(runes, i, end);
      assert Tiles(head, i, j);
    } else {
      RunEndIsMaximal(NonAscii, runes, i, j, end);
      RunRangesTile(m, runes, i, j);
      TilesOrdered(head, i, j);
    }
  }

  /** The cutter partitions every range of runes into pure ranges. */
  lemma {:induction false} HmmRangesPartition(m: HMMModel, runes: seq<RuneStr>, i: nat, end: nat)
    requires m.Valid() && i <= end <= |runes|
    ensures var wrs := HmmRanges(m, runes, i, end);
            Tiles(wrs, i, end) && AllPure(runes, wrs, end)
    decreases end - i
  {
    hide HeadRanges, HeadEnd;
    if i < end {
      var j := HeadEnd(runes, i, end);
      var head, rest := HeadRanges(m, runes, i, end), HmmRanges(m, runes, j, end);
      HeadPartition(m, runes, i, end);
      HmmRangesPartition(m, runes, j, end);
      assert HmmRanges(m, runes, i, end) == head + rest;
      TilesAppend(head, rest, i, j, end);
      PureAppend(runes, head, rest, end);
    }
  }

  ghost predicate AllPure(runes: seq<RuneStr>, wrs: seq<WordRange>, end: nat)
    requires end <= |runes|
  {
    InRange(wrs, end) && forall k :: 0 <= k < |wrs| ==> PureRange(runes, wrs[k], end)
  }

  lemma PureAppend(runes: seq<RuneStr>, a: seq<WordRange>, b: seq<WordRange>, end: nat)
    requires end <= |runes| && AllPure(runes, a, end) && AllPure(runes, b, end)
    ensures AllPure(runes, a + b, end)
  {
    hide PureRange;
  }

  /** [a, b) is a run of non-ASCII runes of [i, end) that cannot be extended. */
  ghost predicate MaximalRun(runes: seq<RuneStr>, i: nat, end: nat, a: nat, b: nat)
    requires end <= |runes|
  {
    && i <= a < b <= end
    && (forall k :: a <= k < b ==> NonAscii(runes[k].rune))
    && (a > i ==> IsAscii(runes[a - 1].rune)) && (b < end ==> IsAscii(runes[b].rune))
  }

  /**
   What the cutter makes of [i, end), said of the ranges: they cover it in order, each ASCII range is one
   token, and each maximal non-ASCII run ends its words where a best state sequence does.
   */
  ghost predicate ModelCut(m: HMMModel, runes: seq<RuneStr>, wrs: seq<WordRange>, i: nat, end: nat)
    requires m.Valid() && end <= |runes|
  {
    && Tiles(wrs, i, end) && AllPure(runes, wrs, end)
    && forall a, b :: MaximalRun(runes, i, end, a, b) ==> RunCut(m, runes, wrs, a, b)
  }

  /** Ranges that end at the same positions of the run are cut in the same way. */
  lemma RunCutKept(m: HMMModel, runes: seq<RuneStr>, wrs: seq<WordRange>, all: seq<WordRange>, a: nat, b: nat)
    requires m.Valid() && a < b <= |runes| && RunCut(m, runes, wrs, a, b)
    requires forall p :: a <= p < b ==> (EndsAt(all, p) <==> EndsAt(wrs, p))
    ensures RunCut(m, runes, all, a, b)
  {
    hide HMMModel.Best, EndsAt;
    var ys :| m.Best(Text(runes, a, b), ys) && EndsMark(ys, wrs, a);
    assert |ys| == b - a by {
      BestLength(m, Text(runes, a, b), ys);
    }
    assert EndsMark(ys, all, a);
  }

  lemma BestLength(m: HMMModel, text: seq<Rune>, ys: seq<nat>)
    requires m.Valid() && text != [] && m.Best(text, ys)
    ensures |ys| == |text|
  {}

  /** A maximal run is the head itself or lies in the rest. */
  lemma RunInHeadOrRest(runes: seq<RuneStr>, i: nat, end: nat, a: nat, b: nat)
    requires i < end <= |runes| && MaximalRun(runes, i, end, a, b)
    ensures var j := HeadEnd(runes, i, end);
            || (a == i && b == j && NonAscii(runes[i].rune))
            || (j <= a && MaximalRun(runes, j, end, a, b))
  {
    var j := HeadEnd(runes, i, end);
    if IsAscii(runes[i].rune) {
      AsciiEndToken(runes, i, end);
      assert NonAscii(runes[a].rune);
    } else {
      RunEndIsMaximal(NonAscii, runes, i, j, end);
      if a < j {
        assert a == i;
        assert !(b < j) && !(j < b);
      }
    }
  }

  /** The cutter's ranges are such a cut. */
  lemma {:induction false} HmmRangesCut(m: HMMModel, runes: seq<RuneStr>, i: nat, end: nat)
    requires m.Valid() && i <= end <= |runes|
    ensures ModelCut(m, runes, HmmRanges(m, runes, i, end), i, end)
    decreases end - i
  {
    hide RunCut, AllPure, RunRanges, EndsAt, HeadEnd;
    var all := HmmRanges(m, runes, i, end);
    HmmRangesPartition(m, runes, i, end);
    if i < end {
      var j := HeadEnd(runes, i, end);
      HmmRangesCut(m, runes, j, end);
      HeadPartition(m, runes, i, end);
      forall a, b | MaximalRun(runes, i, end, a, b)
        ensures RunCut(m, runes, all, a, b)
      {
        RunOfHmmRanges(m, runes, i, end, a, b);
      }
    }
  }

  lemma RunOfHmmRanges(m: HMMModel, runes: seq<RuneStr>, i: nat, end: nat, a: nat, b: nat)
    requires m.Valid() && i < end <= |runes| && MaximalRun(runes, i, end, a, b)
    requires ModelCut(m, runes, HmmRanges(m, runes, HeadEnd(runes, i, end), end), HeadEnd(runes, i, end), end)
    ensures RunCut(m, runes, HmmRanges(m, runes, i, end), a, b)
  {
    hide RunCut, AllPure, RunRanges, EndsAt, HeadEnd, MaximalRun;
    var j := HeadEnd(runes, i, end);
    var head, rest := HeadRanges(m, runes, i, end), HmmRanges(m, runes, j, end);
    HeadPartition(m, runes, i, end);
    forall p: nat
      ensures EndsAt(head + rest, p) <==> if p < j then EndsAt(head, p) else EndsAt(rest, p)
    {
      EndsSplit(head, rest, i, j, end, p);
    }
    RunInHeadOrRest(runes, i, end, a, b);
    MaximalRunBounds(runes, i, end, a, b);
    if a == i && b == j && NonAscii(runes[i].rune) {
      RunRangesCut(m, runes, i, j);
      RunCutKept(m, runes, head, head + rest, a, b);
    } else {
      RunCutKept(m, runes, rest, head + rest, a, b);
    }
  }

  lemma MaximalRunBounds(runes: seq<RuneStr>, i: nat, end: nat, a: nat, b: nat)
    requires end <= |runes| && MaximalRun(runes, i, end, a, b)
    ensures i <= a < b <= end
  {}

  lemma HmmRangesTile(m: HMMModel, runes: seq<RuneStr>, i: nat, end: nat)
    requires m.Valid() && i <= end <= |runes|
    ensures Tiles(HmmRanges(m, runes, i, end), i, end)
  {
    HmmRangesPartition(m, runes, i, end);
  }
}
