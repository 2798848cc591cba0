/** The search segmenter of QuerySegment.hpp: the mixed segmentation with dictionary bigrams and trigrams added. */
module QuerySegment {
  import opened Wrappers
  import opened Unicode
  import opened Trie
  import opened DictTrie
  import opened PreFilter
  import opened MixSegment

  /** The grams of `size` runes inside w, from offset i on, that the dictionary knows. */
  ghost function Grams(dict: Dictionary, runes: seq<RuneStr>, w: WordRange, size: nat, i: nat): seq<WordRange>
    requires w.left <= w.right < |runes| && size >= 1
    decreases w.Length() - i
  {
    if i + size > w.Length() then []
    else
      var l := w.left + i;
      (if Lookup(dict, Text(runes, l, l + size)).Some? then [WordRange(l, l + size - 1)] else [])
      + Grams(dict, runes, w, size, i + 1)
  }

  lemma GramStep(dict: Dictionary, runes: seq<RuneStr>, w: WordRange, size: nat, i: nat, res: seq<WordRange>)
    requires w.left <= w.right < |runes| && size >= 1 && i + size <= w.Length()
    ensures var wr := WordRange(w.left + i, w.left + i + size - 1);
            res + Grams(dict, runes, w, size, i)
            == (if Lookup(dict, Text(runes, wr.left, wr.right + 1)).Some? then res + [wr] else res)
               + Grams(dict, runes, w, size, i + 1)
  {
    var wr := WordRange(w.left + i, w.left + i + size - 1);
    var rest := Grams(dict, runes, w, size, i + 1);
    assert [] + rest == rest;
    Assoc(res, [wr], rest);
  }

  lemma NoGramsPastEnd(dict: Dictionary, runes: seq<RuneStr>, w: WordRange, size: nat, i: nat)
    requires w.left <= w.right < |runes| && size >= 1 && i + size > w.Length()
    ensures Grams(dict, runes, w, size, i) == []
  {}

  ghost predicate IsGram(dict: Dictionary, runes: seq<RuneStr>, w: WordRange, size: nat, i: nat, g: WordRange)
    requires w.left <= w.right < |runes| && size >= 1
  {
    && w.left + i <= g.left && g.left + size == g.right + 1 && g.right <= w.right
    && Text(runes, g.left, g.right + 1) in dict
  }

  /** The grams are exactly the dictionary words of that size inside the word, in order. */
  lemma {:induction false} GramsExact(dict: Dictionary, runes: seq<RuneStr>, w: WordRange, size: nat, i: nat)
    requires w.left <= w.right < |runes| && size >= 1
    ensures var gs := Grams(dict, runes, w, size, i);
            && (forall g :: g in gs <==> IsGram(dict, runes, w, size, i, g))
            && (forall a, b :: 0 <= a < b < |gs| ==> gs[a].left < gs[b].left)
    decreases w.Length() - i
  {
    hide IsGram;
    if i + size <= w.Length() {
      GramsExact(dict, runes, w, size, i + 1);
      var rest := Grams(dict, runes, w, size, i + 1);
      forall g: WordRange
        ensures IsGram(dict, runes, w, size, i, g) <==>
                  || IsGram(dict, runes, w, size, i + 1, g)
                  || (g == WordRange(w.left + i, w.left + i + size - 1)
                      && Text(runes, w.left + i, w.left + i + size) in dict)
        ensures IsGram(dict, runes, w, size, i + 1, g) ==> w.left + i < g.left
      {
        GramSplit(dict, runes, w, size, i, g);
      }
      assert forall a :: 0 <= a < |rest| ==> rest[a] in rest;
    } else {
      forall g: WordRange
        ensures !IsGram(dict, runes, w, size, i, g)
      {
        GramSplit(dict, runes, w, size, i, g);
      }
    }
  }

  lemma GramSplit(dict: Dictionary, runes: seq<RuneStr>, w: WordRange, size: nat, i: nat, g: WordRange)
    requires w.left <= w.right < |runes| && size >= 1
    ensures i + size > w.Length() ==> !IsGram(dict, runes, w, size, i, g)
    ensures IsGram(dict, runes, w, size, i + 1, g) ==> w.left + i < g.left
    ensures i + size <= w.Length() ==>
              (IsGram(dict, runes, w, size, i, g) <==>
                 || IsGram(dict, runes, w, size, i + 1, g)
                 || (g == WordRange(w.left + i, w.left + i + size - 1)
                     && Text(runes, w.left + i, w.left + i + size) in dict))
  {}

  /** One mixed word with the grams that precede it: bigrams if it is longer than 2, trigrams if longer than 3. */
  ghost function WithGrams(dict: Dictionary, runes: seq<RuneStr>, w: WordRange): seq<WordRange>
    requires w.left <= w.right < |runes|
  {
    GramsBefore(dict, runes, w) + [w]
  }

  ghost function GramsBefore(dict: Dictionary, runes: seq<RuneStr>, w: WordRange): seq<WordRange>
    requires w.left <= w.right < |runes|
  {
    (if w.Length() > 2 then Grams(dict, runes, w, 2, 0) else [])
    + (if w.Length() > 3 then Grams(dict, runes, w, 3, 0) else [])
  }

  ghost function QueryRanges(dict: Dictionary, runes: seq<RuneStr>, mix: seq<WordRange>): seq<WordRange>
    requires InRange(mix, |runes|)
  {
    if mix == [] then [] else WithGrams(dict, runes, mix[0]) + QueryRanges(dict, runes, mix[1..])
  }

  // ----- what the cut is, said of its ranges

  /** In order, exactly the windows of `size` runes inside w that are words of the dictionary. */
  ghost predicate Windows(dict: Dictionary, runes: seq<RuneStr>, w: WordRange, size: nat, gs: seq<WordRange>)
    requires w.left <= w.right < |runes|
  {
    && (forall g: WordRange :: g in gs <==>
          && w.left <= g.left && g.right <= w.right && g.right + 1 == g.left + size
          && Text(runes, g.left, g.left + size) in dict)
    && (forall a, b :: 0 <= a < b < |gs| ==> gs[a].left < gs[b].left)
  }

  /** The windows of two runes if w is longer than two, followed by those of three if it is longer than three. */
  ghost predicate AllWindows(dict: Dictionary, runes: seq<RuneStr>, w: WordRange, gs: seq<WordRange>)
    requires w.left <= w.right < |runes|
  {
    var n := w.right + 1 - w.left;
    exists two, three ::
      && gs == two + three
      && (if n > 2 then Windows(dict, runes, w, 2, two) else two == [])
      && (if n > 3 then Windows(dict, runes, w, 3, three) else three == [])
  }

  /** Where the ranges added for the k-th word begin, when the words stand at the positions `at`. */
  function AddedFrom(at: seq<nat>, k: nat): nat
    requires k <= |at|
  {
    if k == 0 then 0 else at[k - 1] + 1
  }

  /** The words stand in `out` at the positions `at`, each behind all its windows, and nothing else is there. */
  ghost predicate Accompanied(dict: Dictionary, runes: seq<RuneStr>, mix: seq<WordRange>, at: seq<nat>,
                              out: seq<WordRange>)
    requires InRange(mix, |runes|)
  {
    && |at| == |mix| && |out| == AddedFrom(at, |at|)
    && forall k :: 0 <= k < |mix| ==> WordAndWindows(dict, runes, mix[k], AddedFrom(at, k), at[k], out)
  }

  ghost predicate WordAndWindows(dict: Dictionary, runes: seq<RuneStr>, w: WordRange, from: nat, at: nat,
                                 out: seq<WordRange>)
    requires w.left <= w.right < |runes|
  {
    from <= at < |out| && out[at] == w && AllWindows(dict, runes, w, out[from..at])
  }

  lemma GramsAreWindows(dict: Dictionary, runes: seq<RuneStr>, w: WordRange, size: nat)
    requires w.left <= w.right < |runes| && size >= 1
    ensures Windows(dict, runes, w, size, Grams(dict, runes, w, size, 0))
  {
    hide Grams;
    GramsExact(dict, runes, w, size, 0);
    var gs := Grams(dict, runes, w, size, 0);
    forall g: WordRange
      ensures g in gs <==>
                && w.left <= g.left && g.right <= w.right && g.right + 1 == g.left + size
                && Text(runes, g.left, g.left + size) in dict
    {
      assert g in gs <==> IsGram(dict, runes, w, size, 0, g);
    }
  }

  lemma GramsBeforeWindows(dict: Dictionary, runes: seq<RuneStr>, w: WordRange)
    requires w.left <= w.right < |runes|
    ensures AllWindows(dict, runes, w, GramsBefore(dict, runes, w))
  {
    hide Windows, Grams;
    GramsAreWindows(dict, runes, w, 2);
    GramsAreWindows(dict, runes, w, 3);
  }

  lemma {:induction false} QueryRangesLast(dict: Dictionary, runes: seq<RuneStr>, mix: seq<WordRange>)
    requires InRange(mix, |runes|) && mix != []
    ensures var n := |mix| - 1;
            && InRange(mix[..n], |runes|)
            && QueryRanges(dict, runes, mix)
               == QueryRanges(dict, runes, mix[..n]) + WithGrams(dict, runes, mix[n])
  {
    hide WithGrams;
    var n := |mix| - 1;
    if n == 0 {
      assert mix[..n] == [] && mix[1..] == [];
    } else {
      QueryRangesLast(dict, runes, mix[1..]);
      assert mix[..n][1..] == mix[1..][..n - 1];
      Assoc(WithGrams(dict, runes, mix[0]), QueryRanges(dict, runes, mix[1..][..n - 1]),
            WithGrams(dict, runes, mix[n]));
    }
  }

  /** In the query cut every word is accompanied. */
  lemma {:induction false} QueryRangesAccompanied(dict: Dictionary, runes: seq<RuneStr>, mix: seq<WordRange>)
    returns (at: seq<nat>)
    requires InRange(mix, |runes|)
    ensures Accompanied(dict, runes, mix, at, QueryRanges(dict, runes, mix))
  {
    hide Accompanied, QueryRanges, GramsBefore;
    if mix == [] {
      at := [];
      NothingAccompanied(dict, runes);
    } else {
      var n := |mix| - 1;
      QueryRangesLast(dict, runes, mix);
      var before, w := QueryRanges(dict, runes, mix[..n]), mix[n];
      var at0 := QueryRangesAccompanied(dict, runes, mix[..n]);
      at := at0 + [|before| + |GramsBefore(dict, runes, w)|];
      OneMoreAccompanied(dict, runes, mix, at0, before);
    }
  }

  lemma NothingAccompanied(dict: Dictionary, runes: seq<RuneStr>)
    ensures Accompanied(dict, runes, [], [], QueryRanges(dict, runes, []))
  {}

  lemma OneMoreAccompanied(dict: Dictionary, runes: seq<RuneStr>, mix: seq<WordRange>, at0: seq<nat>,
                           before: seq<WordRange>)
    requires InRange(mix, |runes|) && mix != [] && InRange(mix[..|mix| - 1], |runes|)
    requires Accompanied(dict, runes, mix[..|mix| - 1], at0, before)
    ensures var gs, w := GramsBefore(dict, runes, mix[|mix| - 1]), mix[|mix| - 1];
            Accompanied(dict, runes, mix, at0 + [|before| + |gs|], before + (gs + [w]))
  {
    hide WordAndWindows, GramsBefore;
    var n := |mix| - 1;
    var w := mix[n];
    var gs := GramsBefore(dict, runes, w);
    var at, out := at0 + [|before| + |gs|], before + (gs + [w]);
    BehindWindows(dict, runes, w, before);
    forall k | 0 <= k < n
      ensures WordAndWindows(dict, runes, mix[k], AddedFrom(at, k), at[k], out)
    {
      assert WordAndWindows(dict, runes, mix[..n][k], AddedFrom(at0, k), at0[k], before);
      StillBehind(dict, runes, mix[k], AddedFrom(at0, k), at0[k], before, gs + [w]);
    }
  }

  lemma BehindWindows(dict: Dictionary, runes: seq<RuneStr>, w: WordRange, before: seq<WordRange>)
    requires w.left <= w.right < |runes|
    ensures var gs := GramsBefore(dict, runes, w);
            WordAndWindows(dict, runes, w, |before|, |before| + |gs|, before + (gs + [w]))
  {
    hide AllWindows, GramsBefore;
    GramsBeforeWindows(dict, runes, w);
    var gs := GramsBefore(dict, runes, w);
    assert (before + (gs + [w]))[|before|..|before| + |gs|] == gs;
  }

  lemma StillBehind(dict: Dictionary, runes: seq<RuneStr>, w: WordRange, from: nat, at: nat,
                    before: seq<WordRange>, more: seq<WordRange>)
    requires w.left <= w.right < |runes| && WordAndWindows(dict, runes, w, from, at, before)
    ensures WordAndWindows(dict, runes, w, from, at, before + more)
  {
    hide AllWindows;
    assert (before + more)[from..at] == before[from..at];
  }

  // ----- removing the grams again

  predicate Inside(a: WordRange, b: WordRange) { b.left <= a.left && a.right <= b.right }

  /** Drop every range that lies inside a later one. */
  ghost function DropCovered(out: seq<WordRange>): seq<WordRange> {
    if out == [] then []
    else if exists k :: 0 < k < |out| && Inside(out[0], out[k]) then DropCovered(out[1..])
    else [out[0]] + DropCovered(out[1..])
  }

  lemma {:induction false} DropInside(gs: seq<WordRange>, w: WordRange, rest: seq<WordRange>)
    requires forall g :: g in gs ==> Inside(g, w)
    requires w.left <= w.right && forall r :: r in rest ==> w.right < r.left
    ensures DropCovered(gs + ([w] + rest)) == [w] + DropCovered(rest)
  {
    var out := gs + ([w] + rest);
    if gs == [] {
      assert out == [w] + rest;
      assert out[1..] == rest;
    } else {
      assert out[1..] == gs[1..] + ([w] + rest);
      assert out[|gs|] == w && Inside(out[0], out[|gs|]);
      DropInside(gs[1..], w, rest);
    }
  }

  lemma GramsInside(dict: Dictionary, runes: seq<RuneStr>, w: WordRange)
    requires w.left <= w.right < |runes|
    ensures forall g :: g in GramsBefore(dict, runes, w) ==> Inside(g, w)
  {
    GramsExact(dict, runes, w, 2, 0);
    GramsExact(dict, runes, w, 3, 0);
    forall g | g in GramsBefore(dict, runes, w)
      ensures Inside(g, w)
    {
      assert g in Grams(dict, runes, w, 2, 0) || g in Grams(dict, runes, w, 3, 0);
      assert IsGram(dict, runes, w, 2, 0, g) || IsGram(dict, runes, w, 3, 0, g);
    }
  }

  lemma {:induction false} QueryRangesStartAfter(
    dict: Dictionary, runes: seq<RuneStr>, mix: seq<WordRange>, lo: nat, hi: nat)
    requires Tiles(mix, lo, hi) && hi <= |runes|
    ensures InRange(mix, |runes|)
    ensures forall r :: r in QueryRanges(dict, runes, mix) ==> lo <= r.left
    decreases |mix|
  {
    hide GramsBefore;
    TilesOrdered(mix, lo, hi);
    if mix != [] {
      GramsInside(dict, runes, mix[0]);
      QueryRangesStartAfter(dict, runes, mix[1..], mix[0].right + 1, hi);
    }
  }

  /** Removing the grams leaves the mixed segmentation, in order: every added range lies inside its word. */
  lemma {:induction false} DroppingGramsLeavesMix(
    dict: Dictionary, runes: seq<RuneStr>, mix: seq<WordRange>, lo: nat, hi: nat)
    requires Tiles(mix, lo, hi) && hi <= |runes|
    ensures InRange(mix, |runes|)
    ensures DropCovered(QueryRanges(dict, runes, mix)) == mix
    decreases |mix|
  {
    hide GramsBefore;
    TilesOrdered(mix, lo, hi);
    if mix != [] {
      var w, rest := mix[0], QueryRanges(dict, runes, mix[1..]);
      var gs := GramsBefore(dict, runes, w);
      GramsInside(dict, runes, w);
      QueryRangesStartAfter(dict, runes, mix[1..], w.right + 1, hi);
      DroppingGramsLeavesMix(dict, runes, mix[1..], w.right + 1, hi);
      DropInside(gs, w, rest);
      Assoc(gs, [w], rest);
    }
  }

  /** The query cut of [begin, end): a mix cut, with every word behind all its windows. */
  ghost predicate QueryCut(cfg: Config, runes: seq<RuneStr>, begin: nat, end: nat, hmm: bool, out: seq<WordRange>)
    requires cfg.Valid() && begin <= end <= |runes|
  {
    exists mix, at ::
      cfg.MixCut(runes, begin, end, hmm, mix) && InRange(mix, |runes|) && Accompanied(cfg.dict, runes, mix, at, out)
  }

  lemma QueryRangesCut(cfg: Config, runes: seq<RuneStr>, begin: nat, end: nat, hmm: bool)
    requires cfg.Valid() && begin <= end <= |runes|
    ensures InRange(cfg.MixRanges(runes, begin, end, hmm), |runes|)
    ensures QueryCut(cfg, runes, begin, end, hmm,
                     QueryRanges(cfg.dict, runes, cfg.MixRanges(runes, begin, end, hmm)))
  {
    hide Config.MixRanges, Config.MixCut, QueryRanges, Accompanied, InRange;
    var mix := cfg.MixRanges(runes, begin, end, hmm);
    MixInRange(cfg, runes, begin, end, hmm);
    cfg.MixRangesCut(runes, begin, end, hmm);
    var at := QueryRangesAccompanied(cfg.dict, runes, mix);
  }

  // ----- the program

  lemma MixInRange(cfg: Config, runes: seq<RuneStr>, begin: nat, end: nat, hmm: bool)
    requires cfg.Valid() && begin <= end <= |runes|
    ensures InRange(cfg.MixRanges(runes, begin, end, hmm), |runes|)
  {
    cfg.MixRangesTile(runes, begin, end, hmm);
    TilesOrdered(cfg.MixRanges(runes, begin, end, hmm), begin, end);
  }

  lemma NothingBefore<T>(s: seq<T>)
    ensures [] + s == s
  {}

  class QuerySegment {
    const mixSeg: MixSegment

    constructor (mixSeg: MixSegment)
      ensures this.mixSeg == mixSeg
    {
      this.mixSeg := mixSeg;
    }

    /** One of the two inner loops. */
    method AddGrams(ghost cfg: Config, runes: seq<RuneStr>, w: WordRange, size: nat, given: seq<WordRange>)
      returns (res: seq<WordRange>)
      requires mixSeg.Configured(cfg) && w.left <= w.right < |runes| && size >= 1
      ensures res == given + Grams(cfg.dict, runes, w, size, 0)
    {
      hide Grams;
      var trie := mixSeg.dictTrie.trie;
      res := given;
      var i: nat := 0;
      while i + size - 1 < w.Length()
        invariant res + Grams(cfg.dict, runes, w, size, i) == given + Grams(cfg.dict, runes, w, size, 0)
        decreases w.Length() - i
      {
        var wr := WordRange(w.left + i, w.left + i + size - 1);
        GramStep(cfg.dict, runes, w, size, i, res);
        var unit := trie.Find(runes, wr.left, wr.right + 1);
        if unit != None {
          res := res + [wr];
        }
        i := i + 1;
      }
      NoGramsPastEnd(cfg.dict, runes, w, size, i);
    }

    method CutRange(ghost cfg: Config, runes: seq<RuneStr>, begin: nat, end: nat, given: seq<WordRange>, hmm: bool)
      returns (res: seq<WordRange>)
      requires mixSeg.Configured(cfg) && begin <= end <= |runes|
      ensures InRange(cfg.MixRanges(runes, begin, end, hmm), |runes|)
      ensures res == given + QueryRanges(cfg.dict, runes, cfg.MixRanges(runes, begin, end, hmm))
      ensures QueryCut(cfg, runes, begin, end, hmm, res[|given|..])
    {
      hide MixSegment.Configured, MixSegment.Valid, MixSegment.Configuration, QueryRanges, Config.MixRanges,
           Config.Valid, InRange, QueryCut;
      mixSeg.ConfiguredMeans(cfg);
      QueryRangesCut(cfg, runes, begin, end, hmm);
      MixInRange(cfg, runes, begin, end, hmm);
      var mixRes := mixSeg.CutRange(runes, begin, end, [], hmm);
      NothingBefore(cfg.MixRanges(runes, begin, end, hmm));
      res := AddAll(cfg, runes, mixRes, given);
    }

    method AddAll(ghost cfg: Config, runes: seq<RuneStr>, mixRes: seq<WordRange>, given: seq<WordRange>)
      returns (res: seq<WordRange>)
      requires mixSeg.Configured(cfg) && InRange(mixRes, |runes|)
      ensures res == given + QueryRanges(cfg.dict, runes, mixRes)
    {
      res := given;
      assert mixRes[0..] == mixRes;
      for k := 0 to |mixRes|
        invariant res + QueryRanges(cfg.dict, runes, mixRes[k..]) == given + QueryRanges(cfg.dict, runes, mixRes)
      {
        assert mixRes[k..][1..] == mixRes[k + 1..];
        Assoc(res, WithGrams(cfg.dict, runes, mixRes[k]), QueryRanges(cfg.dict, runes, mixRes[k + 1..]));
        res := AddWord(cfg, runes, mixRes[k], res);
      }
    }

    /** The body of the outer loop: a word after its grams. */
    method AddWord(ghost cfg: Config, runes: seq<RuneStr>, w: WordRange, given: seq<WordRange>)
      returns (res: seq<WordRange>)
      requires mixSeg.Configured(cfg) && w.left <= w.right < |runes|
      ensures res == given + WithGrams(cfg.dict, runes, w)
      ensures WordAndWindows(cfg.dict, runes, w, |given|, |res| - 1, res)
    {
      hide Grams, MixSegment.Configured, AllWindows;
      res := given;
      if w.Length() > 2 {
        res := AddGrams(cfg, runes, w, 2, res);
      }
      if w.Length() > 3 {
        res := AddGrams(cfg, runes, w, 3, res);
      }
      GramsBeforeWindows(cfg.dict, runes, w);
      assert res == given + GramsBefore(cfg.dict, runes, w);
      res := res + [w];
      assert res[|given|..|res| - 1] == GramsBefore(cfg.dict, runes, w);
    }
  }
}
