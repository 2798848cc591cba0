/**
 The mixed segmenter of MixSegment.hpp: the dictionary segmentation, with every run of lone runes
 cut again by the hidden-Markov segmenter, over the ranges of the pre-filter.
 */
module MixSegment {
  import opened Wrappers
  import opened Unicode
  import opened Trie
  import opened DictTrie
  import opened PreFilter
  import MPSegment
  import HMMSegment

  /** Everything a segmentation depends on besides the sentence. */
  datatype Config = Config(dict: Dictionary, minWeight: real, userSingles: set<Rune>,
                           model: HMMSegment.HMMModel, symbols: set<Rune>) {

    ghost predicate Valid() { WellKeyed(dict) && model.Valid() }

    /** A lone rune that is not a user word is left to the model. */
    ghost predicate Lone(runes: seq<RuneStr>, wr: WordRange)
      requires wr.left < |runes|
    {
      wr.left == wr.right && runes[wr.left].rune !in userSingles
    }

    /** The end of the maximal run of lone runes that starts at i. */
    ghost function LoneEnd(runes: seq<RuneStr>, words: seq<WordRange>, hi: nat, i: nat): (j: nat)
      requires Adjacent(words, hi) && hi <= |runes| && i <= |words|
      ensures i <= j <= |words|
      decreases |words| - i
    {
      AdjacentBounds(words, hi, i);
      if i < |words| && Lone(runes, words[i]) then LoneEnd(runes, words, hi, i + 1) else i
    }

    /** A run of lone runes is a contiguous stretch of runes. */
    lemma {:induction false} LoneStretch(runes: seq<RuneStr>, words: seq<WordRange>, hi: nat, i: nat)
      requires Adjacent(words, hi) && hi <= |runes| && i <= |words|
      ensures var j := LoneEnd(runes, words, hi, i);
              && Start(words, hi, j) == Start(words, hi, i) + (j - i) <= |runes|
              && (j > i ==> words[j - 1].left + 1 == Start(words, hi, j))
      decreases |words| - i
    {
      AdjacentBounds(words, hi, i);
      if i < |words| && Lone(runes, words[i]) {
        LoneStretch(runes, words, hi, i + 1);
      }
    }

    /** Every word from i to j is lone, and the next one is not. */
    ghost predicate MaximalRun(runes: seq<RuneStr>, words: seq<WordRange>, i: nat, j: nat) {
      && i <= j <= |words|
      && (forall k :: i <= k < j ==> LoneAt(runes, words, k))
      && (j < |words| ==> !LoneAt(runes, words, j))
    }

    /** The scan stops at the end of the maximal run and nowhere else. */
    lemma {:induction false} LoneIsMaximal(runes: seq<RuneStr>, words: seq<WordRange>, hi: nat, i: nat, j: nat)
      requires Adjacent(words, hi) && hi <= |runes| && i <= |words|
      ensures j == LoneEnd(runes, words, hi, i) <==> MaximalRun(runes, words, i, j)
      decreases |words| - i
    {
      hide Adjacent, Start;
      if i < |words| {
        LoneEndStep(runes, words, hi, i);
        MaximalRunStep(runes, words, i, j);
        if LoneAt(runes, words, i) {
          LoneIsMaximal(runes, words, hi, i + 1, j);
        }
      }
    }

    lemma MaximalRunStep(runes: seq<RuneStr>, words: seq<WordRange>, i: nat, j: nat)
      requires i < |words|
      ensures MaximalRun(runes, words, i, j)
          <==> if LoneAt(runes, words, i) then MaximalRun(runes, words, i + 1, j) else i == j
    {
      hide LoneAt;
      if i < j && !LoneAt(runes, words, i) {
        assert !MaximalRun(runes, words, i, j);
      }
    }

    lemma LoneEndStep(runes: seq<RuneStr>, words: seq<WordRange>, hi: nat, i: nat)
      requires Adjacent(words, hi) && hi <= |runes| && i < |words|
      ensures LoneEnd(runes, words, hi, i)
           == if LoneAt(runes, words, i) then LoneEnd(runes, words, hi, i + 1) else i
    {
      AdjacentBounds(words, hi, i);
    }

    /** The k-th word is a lone rune of the sentence. */
    ghost predicate LoneAt(runes: seq<RuneStr>, words: seq<WordRange>, k: nat)
      requires k < |words|
    {
      words[k].left < |runes| && Lone(runes, words[k])
    }

    /** The model's ranges for the run of lone runes at i. */
    ghost function LoneRanges(runes: seq<RuneStr>, words: seq<WordRange>, hi: nat, i: nat): seq<WordRange>
      requires Valid() && Adjacent(words, hi) && hi <= |runes| && i < |words|
    {
      LoneStretch(runes, words, hi, i);
      var j := LoneEnd(runes, words, hi, i);
      HMMSegment.HmmRanges(model, runes, words[i].left, words[i].left + (j - i))
    }

    /** When the scan from i has stopped at j, its runes are exactly those the model cuts. */
    lemma LoneSpan(runes: seq<RuneStr>, words: seq<WordRange>, hi: nat, i: nat, j: nat)
      requires Valid() && Adjacent(words, hi) && hi <= |runes| && i < |words| && j <= |words|
      requires words[i].left < |runes| && Lone(runes, words[i])
      requires LoneEnd(runes, words, hi, i) == LoneEnd(runes, words, hi, j)
      requires j < |words| ==> words[j].left < |runes| && !Lone(runes, words[j])
      ensures i < j == LoneEnd(runes, words, hi, i) && words[i].left <= words[j - 1].left + 1 <= |runes|
      ensures LoneRanges(runes, words, hi, i)
           == HMMSegment.HmmRanges(model, runes, words[i].left, words[j - 1].left + 1)
    {
      hide HMMSegment.HmmRanges;
      LoneStretch(runes, words, hi, i);
      AdjacentBounds(words, hi, i);
      AdjacentBounds(words, hi, j);
    }

    lemma LoneRangesTile(runes: seq<RuneStr>, words: seq<WordRange>, hi: nat, i: nat)
      requires Valid() && Adjacent(words, hi) && hi <= |runes| && i < |words|
      ensures Tiles(LoneRanges(runes, words, hi, i), words[i].left, Start(words, hi, LoneEnd(runes, words, hi, i)))
    {
      hide HMMSegment.HmmRanges, LoneEnd;
      LoneStretch(runes, words, hi, i);
      var j := LoneEnd(runes, words, hi, i);
      HMMSegment.HmmRangesTile(model, runes, words[i].left, words[i].left + (j - i));
    }

    /** What the word at i, or the run of lone runes at i, becomes, and where the merge goes on. */
    ghost function Replacement(runes: seq<RuneStr>, words: seq<WordRange>, hi: nat, i: nat): (r: (seq<WordRange>, nat))
      requires Valid() && Adjacent(words, hi) && hi <= |runes| && i < |words|
      ensures i < r.1 <= |words|
    {
      AdjacentBounds(words, hi, i);
      if Lone(runes, words[i]) then (LoneRanges(runes, words, hi, i), LoneEnd(runes, words, hi, i))
      else ([words[i]], i + 1)
    }

    lemma ReplacementTiles(runes: seq<RuneStr>, words: seq<WordRange>, hi: nat, i: nat)
      requires Valid() && Adjacent(words, hi) && hi <= |runes| && i < |words|
      ensures var r := Replacement(runes, words, hi, i);
              Tiles(r.0, words[i].left, Start(words, hi, r.1))
    {
      hide LoneRanges;
      AdjacentBounds(words, hi, i);
      LoneRangesTile(runes, words, hi, i);
      assert Tiles([words[i]], words[i].left, words[i].right + 1);
    }

    /** The dictionary words from i on, with each maximal run of lone runes replaced by the model's ranges. */
    ghost function Merge(runes: seq<RuneStr>, words: seq<WordRange>, hi: nat, i: nat): seq<WordRange>
      requires Valid() && Adjacent(words, hi) && hi <= |runes| && i <= |words|
      decreases |words| - i
    {
      if i == |words| then []
      else
        var r := Replacement(runes, words, hi, i);
        r.0 + Merge(runes, words, hi, r.1)
    }

    lemma MergeStep(runes: seq<RuneStr>, words: seq<WordRange>, hi: nat, i: nat, given: seq<WordRange>)
      requires Valid() && Adjacent(words, hi) && hi <= |runes| && i < |words|
      ensures words[i].left < |runes|
      ensures given + Merge(runes, words, hi, i)
           == if Lone(runes, words[i])
              then (given + LoneRanges(runes, words, hi, i)) + Merge(runes, words, hi, LoneEnd(runes, words, hi, i))
              else (given + [words[i]]) + Merge(runes, words, hi, i + 1)
    {
      AdjacentBounds(words, hi, i);
      var r := Replacement(runes, words, hi, i);
      Assoc(given, r.0, Merge(runes, words, hi, r.1));
    }

    /** Merging keeps the ranges adjacent and covering. */
    lemma {:induction false} MergeTiles(runes: seq<RuneStr>, words: seq<WordRange>, hi: nat, i: nat)
      requires Valid() && Adjacent(words, hi) && hi <= |runes| && i <= |words|
      ensures Tiles(Merge(runes, words, hi, i), Start(words, hi, i), hi)
      decreases |words| - i
    {
      hide Replacement;
      if i < |words| {
        var r := Replacement(runes, words, hi, i);
        ReplacementTiles(runes, words, hi, i);
        MergeTiles(runes, words, hi, r.1);
        TilesAppend(r.0, Merge(runes, words, hi, r.1), words[i].left, Start(words, hi, r.1), hi);
      }
    }

    ghost function MPRanges(runes: seq<RuneStr>, begin: nat, end: nat): (words: seq<WordRange>)
      requires Valid() && begin <= end <= |runes|
      ensures Tiles(words, begin, end) && Adjacent(words, end)
    {
      var problem := MPSegment.Problem(dict, minWeight, Text(runes, begin, end), MAX_WORD_LENGTH);
      problem.RangesTile(begin);
      TilesAdjacent(problem.Ranges(begin), begin, end);
      problem.Ranges(begin)
    }

    /** The ranges of the runes [begin, end). */
    ghost function MixRanges(runes: seq<RuneStr>, begin: nat, end: nat, hmm: bool): seq<WordRange>
      requires Valid() && begin <= end <= |runes|
    {
      var words := MPRanges(runes, begin, end);
      if hmm then Merge(runes, words, end, 0) else words
    }

    lemma MixRangesTile(runes: seq<RuneStr>, begin: nat, end: nat, hmm: bool)
      requires Valid() && begin <= end <= |runes|
      ensures Tiles(MixRanges(runes, begin, end, hmm), begin, end)
    {
      var words := MPRanges(runes, begin, end);
      TilesAdjacent(words, begin, end);
      if hmm {
        MergeTiles(runes, words, end, 0);
      }
    }

    // ----- what the cut is, said of its ranges

    /** Words p to q - 1 are a run of lone runes that cannot be extended, not looking before `from`. */
    ghost predicate LoneRun(runes: seq<RuneStr>, words: seq<WordRange>, from: nat, p: nat, q: nat)
      ensures LoneRun(runes, words, from, p, q) ==> from <= p < q <= |words|
    {
      && from <= p < q <= |words|
      && (forall k :: p <= k < q ==> LoneAt(runes, words, k))
      && (p > from ==> !LoneAt(runes, words, p - 1)) && (q < |words| ==> !LoneAt(runes, words, q))
    }

    /** Some stretch of the ranges is the model's cut of [a, b). */
    ghost predicate HasModelCut(runes: seq<RuneStr>, wrs: seq<WordRange>, a: nat, b: nat)
      requires Valid()
    {
      b <= |runes| && exists r, s :: 0 <= r <= s <= |wrs| && HMMSegment.ModelCut(model, runes, wrs[r..s], a, b)
    }

    /** In order: the words from i on that are no lone runes, and the model's cut of every longest run of lone runes. */
    ghost predicate Recut(runes: seq<RuneStr>, words: seq<WordRange>, hi: nat, i: nat, wrs: seq<WordRange>)
      requires Valid() && i <= |words|
    {
      && Tiles(wrs, Start(words, hi, i), hi)
      && (forall k :: i <= k < |words| && !LoneAt(runes, words, k) ==> words[k] in wrs)
      && (forall p: nat, q: nat :: LoneRun(runes, words, i, p, q) ==>
            HasModelCut(runes, wrs, words[p].left, words[q - 1].right + 1))
    }

    /** The cut of [begin, end): an optimal segmentation, with its lone runes cut again by the model if hmm is set. */
    ghost predicate MixCut(runes: seq<RuneStr>, begin: nat, end: nat, hmm: bool, wrs: seq<WordRange>)
      requires Valid() && begin <= end <= |runes|
    {
      var problem := MPSegment.Problem(dict, minWeight, Text(runes, begin, end), 512);
      if hmm then exists words :: problem.Optimal(words, begin) && Recut(runes, words, end, 0, wrs)
      else problem.Optimal(wrs, begin)
    }

    lemma ModelCutInside(runes: seq<RuneStr>, pre: seq<WordRange>, cut: seq<WordRange>, post: seq<WordRange>,
                         a: nat, b: nat)
      requires Valid() && b <= |runes| && HMMSegment.ModelCut(model, runes, cut, a, b)
      ensures HasModelCut(runes, pre + (cut + post), a, b)
    {
      hide HMMSegment.ModelCut;
      assert (pre + (cut + post))[|pre|..|pre| + |cut|] == cut;
    }

    lemma ModelCutBehind(runes: seq<RuneStr>, pre: seq<WordRange>, wrs: seq<WordRange>, a: nat, b: nat)
      requires Valid() && HasModelCut(runes, wrs, a, b)
      ensures HasModelCut(runes, pre + wrs, a, b)
    {
      hide HMMSegment.ModelCut;
      var r, s :| 0 <= r <= s <= |wrs| && HMMSegment.ModelCut(model, runes, wrs[r..s], a, b);
      assert (pre + wrs)[|pre| + r..|pre| + s] == wrs[r..s];
    }

    /** A run of lone runes is the one at i or lies behind it. */
    lemma LoneRunNext(runes: seq<RuneStr>, words: seq<WordRange>, i: nat, j: nat, p: nat, q: nat)
      requires i < |words| && LoneRun(runes, words, i, p, q)
      requires if LoneAt(runes, words, i) then MaximalRun(runes, words, i, j) else j == i + 1
      ensures (p == i && q == j && LoneAt(runes, words, i)) || LoneRun(runes, words, j, p, q)
    {
      hide LoneAt;
      if p == i {
        assert LoneAt(runes, words, i);
        assert !(q < j) && !(j < q);
      }
    }

    /** The runes of the run at i, and the model's cut of them. */
    lemma LoneRangesCut(runes: seq<RuneStr>, words: seq<WordRange>, hi: nat, i: nat)
      requires Valid() && Adjacent(words, hi) && hi <= |runes| && i < |words| && LoneAt(runes, words, i)
      ensures var j := LoneEnd(runes, words, hi, i);
              && i < j && MaximalRun(runes, words, i, j) && words[j - 1].right + 1 <= |runes|
              && HMMSegment.ModelCut(model, runes, LoneRanges(runes, words, hi, i),
                                     words[i].left, words[j - 1].right + 1)
    {
      hide HMMSegment.ModelCut, HMMSegment.HmmRanges, MaximalRun;
      var j := LoneEnd(runes, words, hi, i);
      LoneIsMaximal(runes, words, hi, i, j);
      LoneStretch(runes, words, hi, i);
      HMMSegment.HmmRangesCut(model, runes, words[i].left, words[i].left + (j - i));
    }

    /** The merge is such a re-cut of its words. */
    lemma {:induction false} MergeRecuts(runes: seq<RuneStr>, words: seq<WordRange>, hi: nat, i: nat)
      requires Valid() && Adjacent(words, hi) && hi <= |runes| && i <= |words|
      ensures Recut(runes, words, hi, i, Merge(runes, words, hi, i))
      decreases |words| - i
    {
      hide LoneRun, HasModelCut, Replacement, LoneAt;
      MergeTiles(runes, words, hi, i);
      if i < |words| {
        var (head, j) := Replacement(runes, words, hi, i);
        var all, rest := Merge(runes, words, hi, i), Merge(runes, words, hi, j);
        MergeRecuts(runes, words, hi, j);
        ReplacementKeeps(runes, words, hi, i);
        forall k | i <= k < |words| && !LoneAt(runes, words, k)
          ensures words[k] in all
        {
          assert all == head + rest;
          assert words[k] in if k < j then head else rest;
        }
        forall p: nat, q: nat | LoneRun(runes, words, i, p, q)
          ensures HasModelCut(runes, all, words[p].left, words[q - 1].right + 1)
        {
          MergeRun(runes, words, hi, i, rest, p, q);
          assert all == head + rest;
        }
      }
    }

    /** What the replacement drops is lone, and what it keeps it keeps as it is. */
    lemma ReplacementKeeps(runes: seq<RuneStr>, words: seq<WordRange>, hi: nat, i: nat)
      requires Valid() && Adjacent(words, hi) && hi <= |runes| && i < |words|
      ensures var (head, j) := Replacement(runes, words, hi, i);
              forall k :: i <= k < j && !LoneAt(runes, words, k) ==> words[k] in head
    {
      hide LoneRanges;
      AdjacentBounds(words, hi, i);
      if LoneAt(runes, words, i) {
        LoneIsMaximal(runes, words, hi, i, LoneEnd(runes, words, hi, i));
      }
    }

    lemma MergeRun(runes: seq<RuneStr>, words: seq<WordRange>, hi: nat, i: nat, rest: seq<WordRange>,
                   p: nat, q: nat)
      requires Valid() && Adjacent(words, hi) && hi <= |runes| && i < |words| && LoneRun(runes, words, i, p, q)
      requires LoneRun(runes, words, Replacement(runes, words, hi, i).1, p, q) ==>
                 HasModelCut(runes, rest, words[p].left, words[q - 1].right + 1)
      ensures HasModelCut(runes, Replacement(runes, words, hi, i).0 + rest, words[p].left, words[q - 1].right + 1)
    {
      hide LoneRanges, HasModelCut, LoneRun, MaximalRun, LoneEnd, HMMSegment.ModelCut;
      AdjacentBounds(words, hi, i);
      var (head, j) := Replacement(runes, words, hi, i);
      if LoneAt(runes, words, i) {
        LoneRangesCut(runes, words, hi, i);
      }
      LoneRunNext(runes, words, i, j, p, q);
      if LoneRun(runes, words, j, p, q) {
        ModelCutBehind(runes, head, rest, words[p].left, words[q - 1].right + 1);
      } else {
        ModelCutInside(runes, [], head, rest, words[p].left, words[q - 1].right + 1);
        assert [] + (head + rest) == head + rest;
      }
    }

    lemma MixRangesCut(runes: seq<RuneStr>, begin: nat, end: nat, hmm: bool)
      requires Valid() && begin <= end <= |runes|
      ensures MixCut(runes, begin, end, hmm, MixRanges(runes, begin, end, hmm))
    {
      hide MPSegment.Problem.Optimal, MPSegment.Problem.Ranges, Merge, Recut;
      var words := MPRanges(runes, begin, end);
      var problem := MPSegment.Problem(dict, minWeight, Text(runes, begin, end), 512);
      problem.RangesOptimal(begin);
      assert problem.Optimal(words, begin);
      MergeRecuts(runes, words, end, 0);
    }

    // ----- sentences

    /** The ranges of a decoded sentence from position cursor on, filter range by filter range. */
    ghost function SentenceRanges(runes: seq<RuneStr>, cursor: nat, hmm: bool): seq<WordRange>
      requires Valid() && cursor <= |runes|
      decreases |runes| - cursor
    {
      if cursor == |runes| then []
      else
        var end := NextEnd(symbols, runes, cursor);
        MixRanges(runes, cursor, end, hmm) + SentenceRanges(runes, end, hmm)
    }

    ghost function SentenceTotal(runes: seq<RuneStr>, cursor: nat, hmm: bool, wrs: seq<WordRange>): seq<WordRange>
      requires Valid() && cursor <= |runes|
    {
      wrs + SentenceRanges(runes, cursor, hmm)
    }

    lemma SentenceStep(runes: seq<RuneStr>, cursor: nat, hmm: bool, wrs: seq<WordRange>)
      requires Valid() && cursor < |runes|
      ensures var end := NextEnd(symbols, runes, cursor);
              SentenceTotal(runes, cursor, hmm, wrs)
              == SentenceTotal(runes, end, hmm, wrs + MixRanges(runes, cursor, end, hmm))
    {
      hide MixRanges;
    }

    lemma SentenceEnds(runes: seq<RuneStr>, hmm: bool, wrs: seq<WordRange>)
      requires Valid()
      ensures SentenceTotal(runes, 0, hmm, []) == SentenceRanges(runes, 0, hmm)
      ensures SentenceTotal(runes, |runes|, hmm, wrs) == wrs
    {}

    lemma {:induction false} SentenceRangesTile(runes: seq<RuneStr>, cursor: nat, hmm: bool)
      requires Valid() && cursor <= |runes|
      ensures Tiles(SentenceRanges(runes, cursor, hmm), cursor, |runes|)
      decreases |runes| - cursor
    {
      if cursor < |runes| {
        var end := NextEnd(symbols, runes, cursor);
        MixRangesTile(runes, cursor, end, hmm);
        SentenceRangesTile(runes, end, hmm);
        TilesAppend(MixRanges(runes, cursor, end, hmm), SentenceRanges(runes, end, hmm), cursor, end, |runes|);
      }
    }

    /** Some stretch of the ranges is the cut of the filter range [a, b). */
    ghost predicate HasMixCut(runes: seq<RuneStr>, wrs: seq<WordRange>, a: nat, b: nat, hmm: bool)
      requires Valid() && a <= b <= |runes|
    {
      exists r, s :: 0 <= r <= s <= |wrs| && MixCut(runes, a, b, hmm, wrs[r..s])
    }

    /** The ranges cover the runes from `from` on in order, and hold the cut of every filter range. */
    ghost predicate SentenceCut(runes: seq<RuneStr>, from: nat, hmm: bool, wrs: seq<WordRange>)
      requires Valid()
    {
      && Tiles(wrs, from, |runes|)
      && forall a: nat, b: nat :: IsFilterRange(symbols, runes, from, a, b) ==> HasMixCut(runes, wrs, a, b, hmm)
    }

    lemma {:induction false} SentenceRangesCut(runes: seq<RuneStr>, cursor: nat, hmm: bool)
      requires Valid() && cursor <= |runes|
      ensures SentenceCut(runes, cursor, hmm, SentenceRanges(runes, cursor, hmm))
      decreases |runes| - cursor
    {
      hide MixCut, MixRanges, NextEnd;
      SentenceRangesTile(runes, cursor, hmm);
      if cursor < |runes| {
        var end := NextEnd(symbols, runes, cursor);
        var head, rest := MixRanges(runes, cursor, end, hmm), SentenceRanges(runes, end, hmm);
        assert SentenceRanges(runes, cursor, hmm) == head + rest;
        SentenceRangesCut(runes, end, hmm);
        forall a: nat, b: nat | IsFilterRange(symbols, runes, cursor, a, b)
          ensures HasMixCut(runes, head + rest, a, b, hmm)
        {
          FilterRangeNext(symbols, runes, cursor, a, b);
          if a == cursor && b == end {
            MixRangesCut(runes, cursor, end, hmm);
            assert (head + rest)[0..|head|] == head;
          } else {
            MixCutBehind(runes, head, rest, a, b, hmm);
          }
        }
      }
    }

    lemma MixCutBehind(runes: seq<RuneStr>, pre: seq<WordRange>, wrs: seq<WordRange>, a: nat, b: nat, hmm: bool)
      requires Valid() && a <= b <= |runes| && HasMixCut(runes, wrs, a, b, hmm)
      ensures HasMixCut(runes, pre + wrs, a, b, hmm)
    {
      hide MixCut;
      var r, s :| 0 <= r <= s <= |wrs| && MixCut(runes, a, b, hmm, wrs[r..s]);
      assert (pre + wrs)[|pre| + r..|pre| + s] == wrs[r..s];
    }

    /** The words of a sentence, said of the text: those of a cut of its runes if it decodes, and none otherwise. */
    ghost predicate CutsSentence(sentence: seq<Byte>, hmm: bool, words: seq<Word>)
      requires Valid()
    {
      var runes := Decode(sentence).runes;
      if !Decode(sentence).ok then words == []
      else
        && OffsetsTile(runes, |sentence|)
        && exists wrs ::
             && SentenceCut(runes, 0, hmm, wrs) && InRange(wrs, |runes|)
             && words == WordsOf(sentence, runes, wrs)
    }

    lemma SentenceWordsCut(sentence: seq<Byte>, hmm: bool)
      requires Valid()
      ensures CutsSentence(sentence, hmm, SentenceWords(sentence, hmm))
    {
      hide SentenceCut, SentenceRanges;
      if Decode(sentence).ok {
        var runes := Decode(sentence).runes;
        DecodeTiles(sentence, 0, 0);
        SentenceRangesTile(runes, 0, hmm);
        TilesOrdered(SentenceRanges(runes, 0, hmm), 0, |runes|);
        SentenceRangesCut(runes, 0, hmm);
      }
    }

    /** The words of a sentence: none when it does not decode. */
    ghost function SentenceWords(sentence: seq<Byte>, hmm: bool): seq<Word>
      requires Valid()
    {
      if !Decode(sentence).ok then []
      else
        var runes := Decode(sentence).runes;
        DecodeTiles(sentence, 0, 0);
        SentenceRangesTile(runes, 0, hmm);
        TilesOrdered(SentenceRanges(runes, 0, hmm), 0, |runes|);
        WordsOf(sentence, runes, SentenceRanges(runes, 0, hmm))
    }

    /** Conservation: the words of a sentence read back exactly the sentence if it decodes, and nothing otherwise. */
    lemma WordsConserveSentence(sentence: seq<Byte>, hmm: bool)
      requires Valid()
      ensures Flatten(Strings(SentenceWords(sentence, hmm))) == if Decode(sentence).ok then sentence else []
    {
      if Decode(sentence).ok {
        var runes := Decode(sentence).runes;
        DecodeTiles(sentence, 0, 0);
        SentenceRangesTile(runes, 0, hmm);
        TilingConserves(sentence, runes, SentenceRanges(runes, 0, hmm), 0, |runes|);
        assert sentence[0..|sentence|] == sentence;
      }
    }
  }

  /** The start of word i, or hi past the last word. */
  function Start(words: seq<WordRange>, hi: nat, i: nat): nat
    requires i <= |words|
  {
    if i < |words| then words[i].left else hi
  }

  /** Each word ends where the next one starts, and the last one at hi: tiling, stated position by position. */
  ghost predicate Adjacent(words: seq<WordRange>, hi: nat) {
    forall k :: 0 <= k < |words| ==> words[k].left <= words[k].right && words[k].right + 1 == Start(words, hi, k + 1)
  }

  lemma {:induction false} AdjacentBounds(words: seq<WordRange>, hi: nat, i: nat)
    requires Adjacent(words, hi) && i <= |words|
    ensures Start(words, hi, i) <= hi
    ensures i < |words| ==> words[i].left <= words[i].right < hi
    decreases |words| - i
  {
    if i < |words| {
      AdjacentBounds(words, hi, i + 1);
    }
  }

  lemma {:induction false} TilesAdjacent(words: seq<WordRange>, lo: nat, hi: nat)
    requires Tiles(words, lo, hi)
    ensures Adjacent(words, hi) && Start(words, hi, 0) == lo
    decreases |words|
  {
    if words != [] {
      TilesAdjacent(words[1..], words[0].right + 1, hi);
      forall k | 0 <= k < |words|
        ensures words[k].left <= words[k].right && words[k].right + 1 == Start(words, hi, k + 1)
      {
        if k > 0 {
          assert words[k] == words[1..][k - 1] && Start(words, hi, k + 1) == Start(words[1..], hi, k);
        }
      }
    }
  }

  class MixSegment {
    const dictTrie: DictTrie
    const model: HMMSegment.HMMModel
    const symbols: set<Rune>

    constructor (dictTrie: DictTrie, model: HMMSegment.HMMModel, symbols: set<Rune>)
      requires dictTrie.Valid() && model.Valid()
      ensures this.dictTrie == dictTrie && this.model == model && this.symbols == symbols
    {
      this.dictTrie, this.model, this.symbols := dictTrie, model, symbols;
    }

    ghost predicate Valid()
      reads dictTrie.trie, dictTrie.trie.nodes.Values
    {
      dictTrie.Valid() && model.Valid()
    }

    ghost function Configuration(): Config
      reads dictTrie.trie
    {
      Config(dictTrie.trie.dict, dictTrie.minWeight, dictTrie.userSingles, model, symbols)
    }

    ghost predicate Configured(cfg: Config)
      reads dictTrie.trie, dictTrie.trie.nodes.Values
    {
      Valid() && Configuration() == cfg
    }

    lemma ConfiguredMeans(cfg: Config)
      requires Configured(cfg)
      ensures Valid() && cfg == Configuration() && cfg.Valid()
    {}

    /** The range version of Cut. */
    method CutRange(runes: seq<RuneStr>, begin: nat, end: nat, given: seq<WordRange>, hmm: bool)
      returns (res: seq<WordRange>)
      requires Valid() && begin <= end <= |runes|
      ensures res == given + Configuration().MixRanges(runes, begin, end, hmm)
      ensures Configuration().MixCut(runes, begin, end, hmm, res[|given|..])
    {
      hide Config.MixCut;
      ghost var cfg := Configuration();
      cfg.MixRangesCut(runes, begin, end, hmm);
      if !hmm {
        res := MPSegment.Cut(dictTrie, runes, begin, end, given, MAX_WORD_LENGTH);
        return;
      }
      var words := MPSegment.Cut(dictTrie, runes, begin, end, [], MAX_WORD_LENGTH);
      assert words == cfg.MPRanges(runes, begin, end);
      res := MergeLone(cfg, runes, words, end, given);
    }

    /** The merging loop: i jumps over each run of lone runes. */
    method MergeLone(ghost cfg: Config, runes: seq<RuneStr>, words: seq<WordRange>, ghost hi: nat,
                     given: seq<WordRange>)
      returns (res: seq<WordRange>)
      requires cfg.Valid() && cfg.model == model && cfg.userSingles == dictTrie.userSingles
      requires Adjacent(words, hi) && hi <= |runes|
      ensures res == given + cfg.Merge(runes, words, hi, 0)
    {
      hide Config.LoneRanges, Config.LoneEnd;
      res := given;
      var i := 0;
      while i < |words|
        invariant i <= |words|
        invariant res + cfg.Merge(runes, words, hi, i) == given + cfg.Merge(runes, words, hi, 0)
      {
        cfg.MergeStep(runes, words, hi, i, res);
        AdjacentBounds(words, hi, i);
        if words[i].left != words[i].right
           || (words[i].left == words[i].right && runes[words[i].left].rune in dictTrie.userSingles) {
          res := res + [words[i]];
          i := i + 1;
        } else {
          var hmmRes;
          hmmRes, i := CutLone(cfg, runes, words, hi, i);
          res := Append(res, hmmRes);
        }
      }
    }

    /** One run: find its end and cut its runes with the model. */
    method CutLone(ghost cfg: Config, runes: seq<RuneStr>, words: seq<WordRange>, ghost hi: nat, i: nat)
      returns (hmmRes: seq<WordRange>, j: nat)
      requires cfg.Valid() && cfg.model == model && cfg.userSingles == dictTrie.userSingles
      requires Adjacent(words, hi) && hi <= |runes| && i < |words| && words[i].left < |runes|
      requires cfg.Lone(runes, words[i])
      ensures j == cfg.LoneEnd(runes, words, hi, i) && j > i && hmmRes == cfg.LoneRanges(runes, words, hi, i)
    {
      hide HMMSegment.HmmRanges, Adjacent;
      j := i;
      while j < |words| && (AdjacentBounds(words, hi, j); words[j].left == words[j].right)
            && runes[words[j].left].rune !in dictTrie.userSingles
        invariant i <= j <= |words|
        invariant cfg.LoneEnd(runes, words, hi, i) == cfg.LoneEnd(runes, words, hi, j)
      {
        j := j + 1;
      }
      cfg.LoneSpan(runes, words, hi, i, j);
      hmmRes := HMMSegment.Cut(model, runes, words[i].left, words[j - 1].left + 1, []);
    }

    method Append(given: seq<WordRange>, more: seq<WordRange>) returns (res: seq<WordRange>)
      ensures res == given + more
    {
      res := given;
      for k := 0 to |more|
        invariant res == given + more[..k]
      {
        res := res + [more[k]];
      }
    }

    /** The sentence version of Cut. */
    method Cut(sentence: seq<Byte>, hmm: bool) returns (words: seq<Word>)
      requires Valid() && |sentence| < UINT32_LIMIT
      ensures words == Configuration().SentenceWords(sentence, hmm)
      ensures Configuration().CutsSentence(sentence, hmm, words)
    {
      hide Config.SentenceRanges, Config.SentenceWords, Config.CutsSentence;
      ghost var cfg := Configuration();
      cfg.SentenceWordsCut(sentence, hmm);
      var preFilter := new PreFilter(symbols, sentence);
      var wrs := FilterAndCut(preFilter, hmm);
      words := WordsOfRanges(cfg, sentence, preFilter.sentence, wrs, hmm);
    }

    /** The loop over the filter's ranges. */
    method FilterAndCut(preFilter: PreFilter, hmm: bool) returns (wrs: seq<WordRange>)
      requires Valid() && preFilter.Valid() && preFilter.cursor == 0 && preFilter.symbols == symbols
      modifies preFilter
      ensures wrs == Configuration().SentenceRanges(preFilter.sentence, 0, hmm)
    {
      hide Config.SentenceTotal, Config.SentenceRanges, Config.MixRanges, Config.SentenceWords, NextEnd;
      ghost var cfg := Configuration();
      var runes := preFilter.sentence;
      wrs := [];
      cfg.SentenceEnds(runes, hmm, []);
      while preFilter.HasNext()
        invariant preFilter.Valid() && Valid() && Configuration() == cfg
        invariant cfg.SentenceTotal(runes, preFilter.cursor, hmm, wrs) == cfg.SentenceRanges(runes, 0, hmm)
        decreases |runes| - preFilter.cursor
      {
        cfg.SentenceStep(runes, preFilter.cursor, hmm, wrs);
        var range := preFilter.Next();
        assert Valid() && Configuration() == cfg;
        wrs := CutRange(runes, range.begin, range.end, wrs, hmm);
      }
      cfg.SentenceEnds(runes, hmm, wrs);
    }

    method WordsOfRanges(ghost cfg: Config, sentence: seq<Byte>, runes: seq<RuneStr>, wrs: seq<WordRange>,
                         ghost hmm: bool)
      returns (words: seq<Word>)
      requires cfg.Valid() && runes == if Decode(sentence).ok then Decode(sentence).runes else []
      requires wrs == cfg.SentenceRanges(runes, 0, hmm)
      ensures words == cfg.SentenceWords(sentence, hmm)
    {
      cfg.SentenceRangesTile(runes, 0, hmm);
      TilesOrdered(wrs, 0, |runes|);
      if Decode(sentence).ok {
        DecodeTiles(sentence, 0, 0);
      }
      words := GetWordsFromWordRanges(sentence, runes, wrs);
    }
  }
}
