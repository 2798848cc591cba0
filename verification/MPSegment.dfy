/** The maximum-probability segmenter of MPSegment.hpp: a right-to-left dynamic program over the word graph. */
module MPSegment {
  import opened Wrappers
  import opened Unicode
  import opened Trie
  import opened DictTrie

  // ----- what the dynamic program computes

  datatype Cell = Cell(pInfo: Option<DictUnit>, weight: real)

  /** The weight of the best continuation at position pos, given the solved cells of a suffix of n positions. */
  function WeightAt(tail: seq<Cell>, n: nat, pos: nat): real
    requires |tail| <= n && n - |tail| <= pos <= n
  {
    if pos < n then tail[pos - (n - |tail|)].weight else 0.0
  }

  function UnitWeight(unit: Option<DictUnit>, minWeight: real): real {
    if unit.Some? then unit.value.weight else minWeight
  }

  function EdgeValue(e: Edge, tail: seq<Cell>, n: nat, minWeight: real): real
    requires |tail| <= n && n - |tail| <= e.last + 1 <= n
  {
    WeightAt(tail, n, e.last + 1) + UnitWeight(e.unit, minWeight)
  }

  /** Every edge leads to a solved cell or to the end. */
  ghost predicate EdgesReach(nexts: seq<Edge>, tail: seq<Cell>, n: nat) {
    |tail| <= n && forall k :: 0 <= k < |nexts| ==> n - |tail| <= nexts[k].last + 1 <= n
  }

  /** The first edge of maximal value above the floor, or no edge. */
  ghost function Relax(nexts: seq<Edge>, tail: seq<Cell>, n: nat, minWeight: real): Cell
    requires EdgesReach(nexts, tail, n)
  {
    if nexts == [] then Cell(None, MIN_DOUBLE)
    else
      var k := |nexts| - 1;
      var cell := Relax(nexts[..k], tail, n, minWeight);
      var val := EdgeValue(nexts[k], tail, n, minWeight);
      if val > cell.weight then Cell(nexts[k].unit, val) else cell
  }

  lemma {:induction false} RelaxIsMaximum(nexts: seq<Edge>, tail: seq<Cell>, n: nat, minWeight: real)
    requires EdgesReach(nexts, tail, n)
    ensures var cell := Relax(nexts, tail, n, minWeight);
            && cell.weight >= MIN_DOUBLE
            && (forall k :: 0 <= k < |nexts| ==> EdgeValue(nexts[k], tail, n, minWeight) <= cell.weight)
            && (cell == Cell(None, MIN_DOUBLE)
                || exists k :: 0 <= k < |nexts| && cell == Cell(nexts[k].unit, EdgeValue(nexts[k], tail, n, minWeight)))
  {
    if nexts != [] {
      RelaxIsMaximum(nexts[..|nexts| - 1], tail, n, minWeight);
    }
  }

  type Graph = seq<seq<Edge>>

  /** Edges go forward and stay inside the text. */
  ghost predicate Forward(graph: Graph) {
    forall i, k :: 0 <= i < |graph| && 0 <= k < |graph[i]| ==> i <= graph[i][k].last < |graph|
  }

  ghost function Solve(graph: Graph, i: nat, minWeight: real): (cells: seq<Cell>)
    requires Forward(graph) && i <= |graph|
    ensures |cells| == |graph| - i
    decreases |graph| - i
  {
    if i == |graph| then []
    else
      var tail := Solve(graph, i + 1, minWeight);
      [Relax(graph[i], tail, |graph|, minWeight)] + tail
  }

  lemma {:induction false} SolveSuffix(graph: Graph, i: nat, j: nat, minWeight: real)
    requires Forward(graph) && i <= j <= |graph|
    ensures Solve(graph, j, minWeight) == Solve(graph, i, minWeight)[j - i..]
    decreases j - i
  {
    if i < j {
      SolveSuffix(graph, i + 1, j, minWeight);
    }
  }

  // ----- segmentations and their scores, independently of the program

  /** A text to segment, with the dictionary, the weight of unknown runes and the word length limit. */
  datatype Problem = Problem(dict: Dictionary, minWeight: real, text: seq<Rune>, maxWordLen: nat) {

    /** A piece is a single rune or a dictionary word of at most maxWordLen runes. */
    ghost predicate IsPiece(i: nat, len: nat) {
      && 1 <= len && i + len <= |text|
      && (len == 1 || (len <= maxWordLen && text[i..i + len] in dict))
    }

    ghost predicate Segmentation(i: nat, lens: seq<nat>)
      decreases |lens|
    {
      if lens == [] then i == |text| else IsPiece(i, lens[0]) && Segmentation(i + lens[0], lens[1..])
    }

    ghost function PieceWeight(i: nat, len: nat): real
      requires i + len <= |text|
    {
      UnitWeight(Lookup(dict, text[i..i + len]), minWeight)
    }

    /** Added from the right, floored after every addition; an unknown rune weighs the minimum. */
    ghost function Score(i: nat, lens: seq<nat>): real
      requires Segmentation(i, lens)
      decreases |lens|
    {
      if lens == [] then 0.0
      else Max(MIN_DOUBLE, Score(i + lens[0], lens[1..]) + PieceWeight(i, lens[0]))
    }

    // ----- the program's answer

    ghost function Graph(): (g: Graph)
      ensures |g| == |text|
      ensures forall i :: 0 <= i < |text| ==> g[i] == Edges(dict, text, i, maxWordLen)
    {
      seq(|text|, i requires 0 <= i < |text| => Edges(dict, text, i, maxWordLen))
    }

    lemma GraphForward()
      ensures Forward(Graph())
    {
      forall i, k | 0 <= i < |text| && 0 <= k < |Graph()[i]|
        ensures i <= Graph()[i][k].last < |text|
      {
        EdgePiece(i, k);
      }
    }

    ghost function SolveFrom(i: nat): (cells: seq<Cell>)
      requires i <= |text|
      ensures |cells| == |text| - i
    {
      GraphForward();
      Solve(Graph(), i, minWeight)
    }

    ghost function BestFrom(i: nat): real
      requires i <= |text|
    {
      WeightAt(SolveFrom(i), |text|, i)
    }

    lemma TailWeight(i: nat, j: nat)
      requires i <= j <= |text|
      ensures WeightAt(SolveFrom(i), |text|, j) == BestFrom(j)
    {
      GraphForward();
      SolveSuffix(Graph(), i, j, minWeight);
    }

    /** The cell at i: its weight bounds every edge and is attained by one of them, or is the floor. */
    lemma CellAt(i: nat) returns (cell: Cell, tail: seq<Cell>)
      requires i < |text|
      ensures SolveFrom(i) == [cell] + tail && tail == SolveFrom(i + 1) && cell.weight == BestFrom(i)
      ensures EdgesReach(Edges(dict, text, i, maxWordLen), tail, |text|)
      ensures var es := Edges(dict, text, i, maxWordLen);
              && cell.weight >= MIN_DOUBLE
              && (forall k :: 0 <= k < |es| ==> EdgeValue(es[k], tail, |text|, minWeight) <= cell.weight)
              && (cell == Cell(None, MIN_DOUBLE)
                  || exists k :: 0 <= k < |es| && cell == Cell(es[k].unit, EdgeValue(es[k], tail, |text|, minWeight)))
    {
      GraphForward();
      tail := SolveFrom(i + 1);
      cell := Relax(Graph()[i], tail, |text|, minWeight);
      RelaxIsMaximum(Graph()[i], tail, |text|, minWeight);
    }

    /** Every edge is a piece; an edge without a unit is a single rune. */
    lemma EdgePiece(i: nat, k: nat)
      requires i < |text| && k < |Edges(dict, text, i, maxWordLen)|
      ensures var e := Edges(dict, text, i, maxWordLen)[k];
              && i <= e.last < |text| && IsPiece(i, e.last + 1 - i)
              && e.unit == Lookup(dict, text[i..e.last + 1])
              && (e.unit == None ==> e.last == i)
    {
      if k > 0 {
        LongerEdgesExact(dict, text, i, i + 1, maxWordLen);
        var es := LongerEdges(dict, text, i, i + 1, maxWordLen);
        assert Edges(dict, text, i, maxWordLen)[k] == es[k - 1];
        assert IsLongerEdge(es[k - 1], dict, text, i, i + 1, maxWordLen);
      }
    }

    /** Every piece is an edge. */
    lemma PieceEdge(i: nat, len: nat) returns (k: nat)
      requires IsPiece(i, len)
      ensures var es := Edges(dict, text, i, maxWordLen);
              k < |es| && es[k] == Edge(i + len - 1, Lookup(dict, text[i..i + len]))
    {
      var es := Edges(dict, text, i, maxWordLen);
      if len == 1 {
        k := 0;
      } else {
        LongerEdgesExact(dict, text, i, i + 1, maxWordLen);
        var longer := LongerEdges(dict, text, i, i + 1, maxWordLen);
        var e := Edge(i + len - 1, WordAt(dict, text, i, i + len - 1));
        assert IsLongerEdge(e, dict, text, i, i + 1, maxWordLen);
        var m :| 0 <= m < |longer| && longer[m] == e;
        k := m + 1;
        assert es[k] == e;
      }
    }

    /** No segmentation scores more than the program's weight. */
    lemma {:induction false} NoBetterSegmentation(i: nat, lens: seq<nat>)
      requires i <= |text| && Segmentation(i, lens)
      ensures Score(i, lens) <= BestFrom(i)
      decreases |lens|
    {
      hide SolveFrom, PieceWeight;
      if lens != [] {
        var next := i + lens[0];
        NoBetterSegmentation(next, lens[1..]);
        PieceBound(i, lens[0]);
      }
    }

    /** A piece and the best continuation never score above the cell. */
    lemma PieceBound(i: nat, len: nat)
      requires IsPiece(i, len)
      ensures Max(MIN_DOUBLE, BestFrom(i + len) + PieceWeight(i, len)) <= BestFrom(i)
    {
      hide SolveFrom, BestFrom, Edges, WeightAt;
      var k := PieceEdge(i, len);
      var cell, tail := CellAt(i);
      TailWeight(i + 1, i + len);
      assert EdgeValue(Edges(dict, text, i, maxWordLen)[k], tail, |text|, minWeight)
          == BestFrom(i + len) + PieceWeight(i, len);
    }

    /** An edge stands for a piece: its value is the piece's weight and the best continuation. */
    lemma EdgeStands(i: nat, k: nat)
      requires WellKeyed(dict) && i < |text| && k < |Edges(dict, text, i, maxWordLen)|
      ensures var e := Edges(dict, text, i, maxWordLen)[k];
              && i <= e.last < |text| && IsPiece(i, e.last + 1 - i)
              && EdgeValue(e, SolveFrom(i + 1), |text|, minWeight)
                 == BestFrom(e.last + 1) + PieceWeight(i, e.last + 1 - i)
              && (e.unit.Some? ==> |e.unit.value.word| == e.last + 1 - i)
              && (e.unit == None || k == 0 ==> e.last == i)
    {
      hide SolveFrom, BestFrom, WeightAt, IsPiece;
      EdgePiece(i, k);
      TailWeight(i + 1, Edges(dict, text, i, maxWordLen)[k].last + 1);
    }

    /** The edge that the cell at i stands for: the first one when none rises above the floor. */
    lemma CellChoice(i: nat) returns (k: nat)
      requires i < |text|
      ensures EdgesReach(Edges(dict, text, i, maxWordLen), SolveFrom(i + 1), |text|)
      ensures var es, cell := Edges(dict, text, i, maxWordLen), SolveFrom(i)[0];
              && k < |es|
              && (cell.pInfo == es[k].unit || (cell.pInfo == None && k == 0))
              && BestFrom(i) == Max(MIN_DOUBLE, EdgeValue(es[k], SolveFrom(i + 1), |text|, minWeight))
    {
      hide SolveFrom, BestFrom, EdgeValue;
      var cell, tail := CellAt(i);
      var es := Edges(dict, text, i, maxWordLen);
      if cell == Cell(None, MIN_DOUBLE) {
        k := 0;
      } else {
        k :| 0 <= k < |es| && cell == Cell(es[k].unit, EdgeValue(es[k], tail, |text|, minWeight));
      }
    }

    /** The cell at i stands for a piece, and its weight is that piece's weight plus the best continuation. */
    lemma CellPiece(i: nat)
      requires WellKeyed(dict) && i < |text|
      ensures var len := StepLength(SolveFrom(i)[0]);
              && IsPiece(i, len)
              && BestFrom(i) == Max(MIN_DOUBLE, BestFrom(i + len) + PieceWeight(i, len))
    {
      hide Edges, SolveFrom, BestFrom, WeightAt, EdgeValue, IsPiece;
      var k := CellChoice(i);
      EdgeStands(i, k);
    }

    ghost function Cells(): (cells: seq<Cell>)
      ensures |cells| == |text|
    {
      SolveFrom(0)
    }

    lemma CellsAt(i: nat)
      requires i < |text|
      ensures Cells()[i] == SolveFrom(i)[0]
    {
      GraphForward();
      SolveSuffix(Graph(), 0, i, minWeight);
    }

    lemma CellsCuttable()
      requires WellKeyed(dict)
      ensures Cuttable(Cells())
    {
      forall i | 0 <= i < |text|
        ensures 1 <= StepLength(Cells()[i]) && i + StepLength(Cells()[i]) <= |text|
      {
        CellPiece(i);
        CellsAt(i);
      }
    }

    /** The cut read off the cells is a segmentation, and its score is the program's weight. */
    lemma {:induction false} CutAttains(i: nat)
      requires WellKeyed(dict) && i <= |text|
      ensures Cuttable(Cells())
      ensures Segmentation(i, Cuts(Cells(), i)) && Score(i, Cuts(Cells(), i)) == BestFrom(i)
      decreases |text| - i
    {
      hide SolveFrom, Cells, IsPiece, PieceWeight;
      CellsCuttable();
      if i < |text| {
        var len := CutFirst(i);
        CutAttains(i + len);
        var rest := Cuts(Cells(), i + len);
        assert ([len] + rest)[1..] == rest;
      }
    }

    lemma CutFirst(i: nat) returns (len: nat)
      requires WellKeyed(dict) && i < |text|
      ensures Cuttable(Cells()) && IsPiece(i, len)
      ensures Cuts(Cells(), i) == [len] + Cuts(Cells(), i + len)
      ensures BestFrom(i) == Max(MIN_DOUBLE, BestFrom(i + len) + PieceWeight(i, len))
    {
      CellsCuttable();
      CellPiece(i);
      CellsAt(i);
      len := StepLength(Cells()[i]);
    }

    /** The segmentation that the segmenter chooses. */
    ghost function Chosen(): seq<nat>
      requires WellKeyed(dict)
    {
      CellsCuttable();
      Cuts(Cells(), 0)
    }

    /** The segmenter's choice is a segmentation of maximum score. */
    lemma ChosenIsOptimal()
      requires WellKeyed(dict)
      ensures Segmentation(0, Chosen())
      ensures forall other :: Segmentation(0, other) ==> Score(0, other) <= Score(0, Chosen())
    {
      CutAttains(0);
      forall other | Segmentation(0, other)
        ensures Score(0, other) <= BestFrom(0)
      {
        NoBetterSegmentation(0, other);
      }
    }

    lemma {:induction false} SegmentationTiles(i: nat, lens: seq<nat>, begin: nat)
      requires Segmentation(i, lens)
      ensures Positive(lens)
      ensures Tiles(RangesOf(lens, begin + i), begin + i, begin + |text|)
      decreases |lens|
    {
      if lens != [] {
        var next := begin + i + lens[0];
        SegmentationTiles(i + lens[0], lens[1..], begin);
        assert lens == [lens[0]] + lens[1..];
        assert RangesOf(lens, begin + i)[1..] == RangesOf(lens[1..], next);
        TilesOrdered(RangesOf(lens[1..], next), next, begin + |text|);
      }
    }

    /** The ranges that the segmenter emits when the text starts at position begin. */
    ghost function Ranges(begin: nat): seq<WordRange>
      requires WellKeyed(dict)
    {
      ChosenIsOptimal();
      SegmentationTiles(0, Chosen(), begin);
      RangesOf(Chosen(), begin)
    }

    /** The ranges, in order, cover the text from position begin on, and no other way to cut it scores more. */
    ghost predicate Optimal(wrs: seq<WordRange>, begin: nat) {
      && Tiles(wrs, begin, begin + |text|)
      && Segmentation(0, Lengths(wrs))
      && forall other :: Segmentation(0, other) ==> Score(0, other) <= Score(0, Lengths(wrs))
    }

    lemma RangesOptimal(begin: nat)
      requires WellKeyed(dict)
      ensures Optimal(Ranges(begin), begin)
    {
      hide Score, Segmentation, Cuts, Cells;
      ChosenIsOptimal();
      SegmentationTiles(0, Chosen(), begin);
      LengthsOfRanges(Chosen(), begin);
    }

    lemma RangesTile(begin: nat)
      requires WellKeyed(dict)
      ensures Tiles(Ranges(begin), begin, begin + |text|)
    {
      hide Score, Segmentation, Ranges;
      RangesOptimal(begin);
    }

    // ----- the score without the floor

    /** The plain sum of the weights of the words, and the minimum for every unknown rune. */
    ghost function WeightSum(i: nat, lens: seq<nat>): real
      requires Segmentation(i, lens)
      decreases |lens|
    {
      if lens == [] then 0.0
      else
        var word := text[i..i + lens[0]];
        WeightSum(i + lens[0], lens[1..]) + if word in dict then dict[word].weight else minWeight
    }

    /** No sum from some piece to the end falls below the floor. */
    ghost predicate AboveFloor(i: nat, lens: seq<nat>)
      requires Segmentation(i, lens)
      decreases |lens|
    {
      lens == [] || (WeightSum(i, lens) >= -3.14e100 && AboveFloor(i + lens[0], lens[1..]))
    }

    /** A score is never below the plain sum, and it is the plain sum if that never falls below the floor. */
    lemma {:induction false} ScoreIsSum(i: nat, lens: seq<nat>)
      requires Segmentation(i, lens)
      ensures Score(i, lens) >= WeightSum(i, lens)
      ensures AboveFloor(i, lens) ==> Score(i, lens) == WeightSum(i, lens)
      decreases |lens|
    {
      hide IsPiece;
      if lens != [] {
        ScoreIsSum(i + lens[0], lens[1..]);
      }
    }
  }

  // ----- reading the cut off the cells

  /** How far the cutter moves from a cell: the length of its word, or one rune. */
  function StepLength(cell: Cell): nat {
    if cell.pInfo.Some? then |cell.pInfo.value.word| else 1
  }

  /** Each cell's word is non-empty and ends inside the text. */
  ghost predicate Cuttable(cells: seq<Cell>) {
    forall i :: 0 <= i < |cells| ==> 1 <= StepLength(cells[i]) && i + StepLength(cells[i]) <= |cells|
  }

  /** The lengths that the cutter reads off the cells from position i. */
  ghost function Cuts(cells: seq<Cell>, i: nat): seq<nat>
    requires Cuttable(cells) && i <= |cells|
    decreases |cells| - i
  {
    if i == |cells| then [] else [StepLength(cells[i])] + Cuts(cells, i + StepLength(cells[i]))
  }

  lemma {:induction false} CutsPositive(cells: seq<Cell>, i: nat)
    requires Cuttable(cells) && i <= |cells|
    ensures Positive(Cuts(cells, i))
    decreases |cells| - i
  {
    if i < |cells| {
      CutsPositive(cells, i + StepLength(cells[i]));
    }
  }

  ghost predicate Positive(lens: seq<nat>) { forall k :: 0 <= k < |lens| ==> lens[k] >= 1 }

  ghost function RangesOf(lens: seq<nat>, begin: nat): (ranges: seq<WordRange>)
    requires Positive(lens)
    ensures |ranges| == |lens|
  {
    if lens == [] then [] else [WordRange(begin, begin + lens[0] - 1)] + RangesOf(lens[1..], begin + lens[0])
  }

  /** How many runes each range holds. */
  ghost function Lengths(wrs: seq<WordRange>): (lens: seq<nat>)
    ensures |lens| == |wrs|
    ensures forall k :: 0 <= k < |wrs| && wrs[k].left <= wrs[k].right ==> lens[k] == wrs[k].right + 1 - wrs[k].left
  {
    seq(|wrs|, k requires 0 <= k < |wrs| =>
      if wrs[k].left <= wrs[k].right then wrs[k].right + 1 - wrs[k].left else 0)
  }

  lemma {:induction false} LengthsOfRanges(lens: seq<nat>, begin: nat)
    requires Positive(lens)
    ensures Lengths(RangesOf(lens, begin)) == lens
  {
    hide RangesOf, Lengths;
    if lens == [] {
      NoRanges(begin);
    } else {
      assert lens == [lens[0]] + lens[1..];
      RangesOfFirst(lens[0], lens[1..], begin);
      LengthsOfRanges(lens[1..], begin + lens[0]);
      LengthsFirst(lens[0], begin, RangesOf(lens[1..], begin + lens[0]));
    }
  }

  lemma NoRanges(begin: nat)
    ensures RangesOf([], begin) == [] && Lengths([]) == []
  {}

  lemma LengthsFirst(len: nat, begin: nat, rest: seq<WordRange>)
    requires len >= 1
    ensures Lengths([WordRange(begin, begin + len - 1)] + rest) == [len] + Lengths(rest)
  {}

  // ----- the program

  ghost function NextsOf(dags: seq<Dag>): (g: Graph)
    ensures |g| == |dags|
    ensures forall i :: 0 <= i < |dags| ==> g[i] == dags[i].nexts
  {
    seq(|dags|, i requires 0 <= i < |dags| => dags[i].nexts)
  }

  ghost function CellsOf(dags: seq<Dag>): (cells: seq<Cell>)
    ensures |cells| == |dags|
    ensures forall i :: 0 <= i < |dags| ==> cells[i] == Cell(dags[i].pInfo, dags[i].weight)
  {
    seq(|dags|, i requires 0 <= i < |dags| => Cell(dags[i].pInfo, dags[i].weight))
  }

  /** The body of the reverse loop: choose the best edge of entry r. */
  method RelaxDag(dags: array<Dag>, r: nat, minWeight: real)
    requires r < dags.Length
    requires EdgesReach(dags[r].nexts, CellsOf(dags[r + 1..]), dags.Length)
    modifies dags
    ensures var cell := Relax(old(dags[r].nexts), CellsOf(old(dags[r + 1..])), dags.Length, minWeight);
            dags[..] == old(dags[..])[r := old(dags[r]).(pInfo := cell.pInfo, weight := cell.weight)]
  {
    hide EdgeValue, CellsOf;
    ghost var was, tail := dags[..], CellsOf(dags[r + 1..]);
    dags[r] := dags[r].(pInfo := None, weight := MIN_DOUBLE);
    var nexts := dags[r].nexts;
    for k := 0 to |nexts|
      invariant dags[..] == was[r := was[r].(pInfo := dags[r].pInfo, weight := dags[r].weight)]
      invariant Cell(dags[r].pInfo, dags[r].weight) == Relax(nexts[..k], tail, dags.Length, minWeight)
    {
      assert CellsOf(dags[r + 1..]) == tail by {
        assert dags[r + 1..] == was[r + 1..];
      }
      var val := ValueOf(dags, r, nexts[k], minWeight);
      assert nexts[..k + 1][..k] == nexts[..k];
      if val > dags[r].weight {
        dags[r] := dags[r].(pInfo := nexts[k].unit, weight := val);
      }
    }
    assert nexts[..|nexts|] == nexts;
  }

  /** The value of one edge: the weight of what follows it, and its own. */
  method ValueOf(dags: array<Dag>, r: nat, e: Edge, minWeight: real) returns (val: real)
    requires r <= e.last < dags.Length
    ensures val == EdgeValue(e, CellsOf(dags[r + 1..]), dags.Length, minWeight)
  {
    var nextPos, p := e.last, e.unit;
    val := 0.0;
    if nextPos + 1 < dags.Length {
      assert dags[nextPos + 1] == dags[r + 1..][nextPos - r];
      val := val + dags[nextPos + 1].weight;
    }
    if p.Some? {
      val := val + p.value.weight;
    } else {
      val := val + minWeight;
    }
  }

  /** The reverse loop fills in weight and pInfo of every entry and changes nothing else. */
  method CalcDP(dags: array<Dag>, minWeight: real)
    requires Forward(NextsOf(dags[..]))
    modifies dags
    ensures NextsOf(dags[..]) == NextsOf(old(dags[..]))
    ensures CellsOf(dags[..]) == Solve(NextsOf(old(dags[..])), 0, minWeight)
    ensures forall i :: 0 <= i < dags.Length ==> dags[i].runestr == old(dags[i].runestr)
  {
    ghost var g := NextsOf(dags[..]);
    var r := dags.Length;
    while r > 0
      invariant 0 <= r <= dags.Length
      invariant NextsOf(dags[..]) == g
      invariant CellsOf(dags[r..]) == Solve(g, r, minWeight)
      invariant forall i :: 0 <= i < dags.Length ==> dags[i].runestr == old(dags[i].runestr)
    {
      r := r - 1;
      ghost var was := dags[..];
      ghost var tail := Solve(g, r + 1, minWeight);
      assert dags[r].nexts == g[r];
      assert CellsOf(dags[r + 1..]) == tail;
      RelaxDag(dags, r, minWeight);
      ghost var cell := Relax(g[r], tail, dags.Length, minWeight);
      assert dags[..] == was[r := was[r].(pInfo := cell.pInfo, weight := cell.weight)];
      assert CellsOf(dags[r..]) == [cell] + CellsOf(was[r + 1..]);
    }
    assert dags[0..] == dags[..];
  }

  ghost function CutRanges(cells: seq<Cell>, i: nat, begin: nat): seq<WordRange>
    requires Cuttable(cells) && i <= |cells|
    decreases |cells| - i
  {
    if i == |cells| then []
    else
      var len := StepLength(cells[i]);
      [WordRange(begin + i, begin + i + len - 1)] + CutRanges(cells, i + len, begin)
  }

  lemma {:induction false} CutRangesAreCuts(cells: seq<Cell>, i: nat, begin: nat)
    requires Cuttable(cells) && i <= |cells|
    ensures Positive(Cuts(cells, i))
    ensures CutRanges(cells, i, begin) == RangesOf(Cuts(cells, i), begin + i)
    decreases |cells| - i
  {
    hide *;
    CutsStep(cells, i, begin);
    if i < |cells| {
      var len := StepLength(cells[i]);
      CutRangesAreCuts(cells, i + len, begin);
      RangesOfFirst(len, Cuts(cells, i + len), begin + i);
    }
  }

  lemma CutsStep(cells: seq<Cell>, i: nat, begin: nat)
    requires Cuttable(cells) && i <= |cells|
    ensures i == |cells| ==>
              Positive(Cuts(cells, i)) && CutRanges(cells, i, begin) == RangesOf(Cuts(cells, i), begin + i)
    ensures i < |cells| ==>
              var len := StepLength(cells[i]);
              && len >= 1 && i + len <= |cells| && Cuts(cells, i) == [len] + Cuts(cells, i + len)
              && CutRanges(cells, i, begin)
                 == [WordRange(begin + i, begin + i + len - 1)] + CutRanges(cells, i + len, begin)
  {}

  lemma RangesOfFirst(len: nat, rest: seq<nat>, begin: nat)
    requires len >= 1 && Positive(rest)
    ensures Positive([len] + rest)
    ensures RangesOf([len] + rest, begin) == [WordRange(begin, begin + len - 1)] + RangesOf(rest, begin + len)
  {
    assert ([len] + rest)[1..] == rest;
  }

  method CutByDag(begin: nat, dags: array<Dag>, words: seq<WordRange>) returns (res: seq<WordRange>)
    requires Cuttable(CellsOf(dags[..]))
    ensures res == words + CutRanges(CellsOf(dags[..]), 0, begin)
  {
    ghost var cells := CellsOf(dags[..]);
    res := words;
    var i := 0;
    while i < dags.Length
      invariant i <= dags.Length
      invariant res + CutRanges(cells, i, begin) == words + CutRanges(cells, 0, begin)
    {
      var p := dags[i].pInfo;
      if p.Some? {
        res := res + [WordRange(begin + i, begin + i + |p.value.word| - 1)];
        i := i + |p.value.word|;
      } else {
        res := res + [WordRange(begin + i, begin + i)];
        i := i + 1;
      }
    }
  }

  /** The range version of Cut: what it appends is an optimal segmentation of the range. */
  method Cut(d: DictTrie, runes: seq<RuneStr>, begin: nat, end: nat, words: seq<WordRange>, maxWordLen: nat)
    returns (res: seq<WordRange>)
    requires d.Valid() && begin <= end <= |runes|
    ensures res == words + Problem(d.trie.dict, d.minWeight, Text(runes, begin, end), maxWordLen).Ranges(begin)
    ensures Problem(d.trie.dict, d.minWeight, Text(runes, begin, end), maxWordLen).Optimal(res[|words|..], begin)
  {
    ghost var problem := Problem(d.trie.dict, d.minWeight, Text(runes, begin, end), maxWordLen);
    var dags := d.trie.FindDag(runes, begin, end, maxWordLen);
    assert NextsOf(dags[..]) == problem.Graph();
    problem.GraphForward();
    CalcDP(dags, d.minWeight);
    assert CellsOf(dags[..]) == problem.Cells();
    problem.CellsCuttable();
    res := CutByDag(begin, dags, words);
    CutRangesAreCuts(problem.Cells(), 0, begin);
    problem.RangesOptimal(begin);
    assert res[|words|..] == problem.Ranges(begin);
  }
}
