/** The keyword extraction of KeywordExtractor.hpp up to the weighted table of keywords. */
module KeywordExtractor {
  import opened Wrappers
  import opened Unicode
  import opened MixSegment
  import Sorting

  type Bytes = seq<Byte>

  /** A keyword's byte offsets in the sentence and its weight. */
  datatype Keyword = Keyword(offsets: seq<nat>, weight: real)

  predicate IsSingleWord(str: Bytes) { DecodeRune(str).len == |str| }

  /** A word is single exactly when it is empty or decodes to one rune. */
  lemma SingleWordExact(w: Bytes)
    ensures IsSingleWord(w) <==> w == [] || (Decode(w).ok && |Decode(w).runes| == 1)
  {
    hide DecodeRune;
    if w != [] {
      assert w[0..] == w;
      var rp := DecodeRune(w);
      if rp.len != 0 {
        DecodeStep(w, 0, 0, rp.rune, rp.len);
        var rest := DecodeFrom(w, rp.len, 1);
        if rp.len < |w| && rest.ok {
          MoreRunes(w, rp.len, 1);
        }
      }
    }
  }

  lemma MoreRunes(s: Bytes, i: nat, j: nat)
    requires i < |s| && DecodeFrom(s, i, j).ok
    ensures DecodeFrom(s, i, j).runes != []
  {}

  /** The table after the first n words: every word that is neither a single rune nor a stop word. */
  ghost function Table(words: seq<Bytes>, stopWords: set<Bytes>, n: nat): map<Bytes, Keyword>
    requires n <= |words|
  {
    if n == 0 then map[]
    else
      var t, w := Table(words, stopWords, n - 1), words[n - 1];
      if IsSingleWord(w) || w in stopWords then t
      else
        var k := if w in t then t[w] else Keyword([], 0.0);
        t[w := Keyword(k.offsets + [|Flatten(words[..n - 1])|], k.weight + 1.0)]
  }

  lemma FlattenTake(words: seq<Bytes>, n: nat)
    requires n < |words|
    ensures Flatten(words[..n + 1]) == Flatten(words[..n]) + words[n]
  {
    assert words[..n + 1] == words[..n] + [words[n]];
    FlattenAppend(words[..n], [words[n]]);
    assert Flatten([words[n]]) == words[n] + Flatten([]);
  }

  ghost predicate OccursAt(text: Bytes, w: Bytes, o: nat) {
    o + |w| <= |text| && text[o..o + |w|] == w
  }

  predicate Countable(w: Bytes, stopWords: set<Bytes>) { !IsSingleWord(w) && w !in stopWords }

  lemma OccursStill(text: Bytes, more: Bytes, w: Bytes, o: nat)
    requires OccursAt(text, w, o)
    ensures OccursAt(text + more, w, o)
  {
    assert (text + more)[o..o + |w|] == text[o..o + |w|];
  }

  ghost predicate Increasing(offsets: seq<nat>) {
    forall a, b :: 0 <= a < b < |offsets| ==> offsets[a] < offsets[b]
  }

  /** Every recorded offset is an occurrence of its word, offsets increase, and the weight is their number. */
  lemma {:induction false} TableOffsets(words: seq<Bytes>, stopWords: set<Bytes>, n: nat, w: Bytes)
    requires n <= |words| && w in Table(words, stopWords, n)
    ensures var k, text := Table(words, stopWords, n)[w], Flatten(words[..n]);
            && Countable(w, stopWords) && k.offsets != [] && k.weight == |k.offsets| as real
            && (forall a :: 0 <= a < |k.offsets| ==> OccursAt(text, w, k.offsets[a]))
            && Increasing(k.offsets)
  {
    hide IsSingleWord;
    WordsInTable(words, stopWords, n, w);
    FlattenTake(words, n - 1);
    var before, v := Flatten(words[..n - 1]), words[n - 1];
    var t0, t1 := Table(words, stopWords, n - 1), Table(words, stopWords, n);
    if w in t0 {
      TableOffsets(words, stopWords, n - 1, w);
      forall a | 0 <= a < |t0[w].offsets|
        ensures OccursAt(before + v, w, t0[w].offsets[a])
      {
        OccursStill(before, v, w, t0[w].offsets[a]);
      }
    }
  }

  /** A word in the table is countable, and so not empty. */
  lemma {:induction false} WordsInTable(words: seq<Bytes>, stopWords: set<Bytes>, n: nat, w: Bytes)
    requires n <= |words| && w in Table(words, stopWords, n)
    ensures n > 0 && Countable(w, stopWords) && w != []
  {
    if w in Table(words, stopWords, n - 1) {
      WordsInTable(words, stopWords, n - 1, w);
    }
  }

  /** Exactly the countable words are in the table, with one offset for each time they occur. */
  lemma {:induction false} TableExact(words: seq<Bytes>, stopWords: set<Bytes>, n: nat, w: Bytes)
    requires n <= |words|
    ensures var t := Table(words, stopWords, n);
            && (w in t <==> w in words[..n] && Countable(w, stopWords))
            && (w in t ==> |t[w].offsets| == multiset(words[..n])[w])
  {
    hide IsSingleWord;
    if n > 0 {
      TableExact(words, stopWords, n - 1, w);
      assert words[..n] == words[..n - 1] + [words[n - 1]];
    }
  }

  /** Every countable word's place in the sentence is recorded. */
  lemma {:induction false} TableRecords(words: seq<Bytes>, stopWords: set<Bytes>, n: nat, i: nat)
    requires i < n <= |words| && Countable(words[i], stopWords)
    ensures var t := Table(words, stopWords, n);
            words[i] in t && |Flatten(words[..i])| in t[words[i]].offsets
  {
    hide IsSingleWord;
    if i < n - 1 {
      TableRecords(words, stopWords, n - 1, i);
    }
  }

  /** The words of the sentence, in order. */
  ghost function CutWords(cfg: Config, sentence: Bytes): seq<Bytes>
    requires cfg.Valid()
  {
    Strings(cfg.SentenceWords(sentence, true))
  }

  /** A keyword of the answer. */
  datatype Entry = Entry(word: Bytes, offsets: seq<nat>, weight: real)

  function EntryOf(m: map<Bytes, Keyword>, w: Bytes): Entry
    requires w in m
  {
    Entry(w, m[w].offsets, m[w].weight)
  }

  /** The list holds every entry of the table once. */
  ghost predicate Complete(entries: seq<Entry>, m: map<Bytes, Keyword>) {
    && |entries| == |m.Keys|
    && forall e: Entry :: multiset(entries)[e] == if e.word in m && e == EntryOf(m, e.word) then 1 else 0
  }

  function WeightOf(e: Entry): real { e.weight }

  /** The first n are in descending order and none of the others weighs more. */
  ghost predicate PartiallySorted(entries: seq<Entry>, n: nat)
    requires n <= |entries|
  {
    && Sorting.Descending(entries[..n], WeightOf)
    && forall a, b :: 0 <= a < n <= b < |entries| ==> entries[a].weight >= entries[b].weight
  }

  /** The answer and the omitted entries make up the table. */
  ghost predicate Top(keywords: seq<Entry>, rest: seq<Entry>, m: map<Bytes, Keyword>, topN: nat) {
    && Complete(keywords + rest, m)
    && |keywords| == (if topN < |m.Keys| then topN else |m.Keys|)
    && PartiallySorted(keywords + rest, |keywords|)
  }

  lemma SameEntries(a: seq<Entry>, b: seq<Entry>, m: map<Bytes, Keyword>)
    requires Complete(a, m) && multiset(a) == multiset(b) && |a| == |b|
    ensures Complete(b, m)
  {}

  lemma AllListed(entries: seq<Entry>, m: map<Bytes, Keyword>)
    requires Complete(entries, m)
    ensures |entries| == |m.Keys|
  {}

  /** Any correct partial sort; only the first n are put in order. */
  method PartialSort(entries: seq<Entry>, n: nat) returns (r: seq<Entry>)
    requires n <= |entries|
    ensures |r| == |entries| && multiset(r) == multiset(entries) && PartiallySorted(r, n)
  {
    r := Sorting.Sort(entries, WeightOf);
    assert |r| == |multiset(r)| == |entries|;
    assert forall e: Entry :: WeightOf(e) == e.weight;
    assert forall a, b :: 0 <= a < b < |r| ==> WeightOf(r[a]) >= WeightOf(r[b]);
  }

  /** The answer, said of its entries: distinct keywords of the table, heaviest first, and no omitted one is heavier. */
  lemma TopExact(keywords: seq<Entry>, rest: seq<Entry>, m: map<Bytes, Keyword>, topN: nat)
    requires Top(keywords, rest, m, topN)
    ensures |keywords| == (if topN < |m.Keys| then topN else |m.Keys|)
    ensures forall k :: 0 <= k < |keywords| ==> keywords[k].word in m && keywords[k] == EntryOf(m, keywords[k].word)
    ensures forall a, b :: 0 <= a < b < |keywords| ==>
              keywords[a].word != keywords[b].word && keywords[a].weight >= keywords[b].weight
    ensures forall w, k :: w in m && EntryOf(m, w) !in keywords && 0 <= k < |keywords| ==>
              keywords[k].weight >= m[w].weight
  {
    hide PartiallySorted, Complete;
    forall k | 0 <= k < |keywords|
      ensures keywords[k].word in m && keywords[k] == EntryOf(m, keywords[k].word)
    {
      TopEntry(keywords, rest, m, topN, k);
    }
    forall a, b | 0 <= a < b < |keywords|
      ensures keywords[a].word != keywords[b].word && keywords[a].weight >= keywords[b].weight
    {
      KeywordsDescend(keywords, rest, m, topN, a, b);
    }
    forall w, k | w in m && EntryOf(m, w) !in keywords && 0 <= k < |keywords|
      ensures keywords[k].weight >= m[w].weight
    {
      OmittedLighter(keywords, rest, m, topN, w, k);
    }
  }

  lemma TopEntry(keywords: seq<Entry>, rest: seq<Entry>, m: map<Bytes, Keyword>, topN: nat, k: nat)
    requires Top(keywords, rest, m, topN) && k < |keywords|
    ensures keywords[k].word in m && keywords[k] == EntryOf(m, keywords[k].word)
  {
    hide PartiallySorted, Complete;
    EntryAt(keywords + rest, m, k);
  }

  lemma KeywordsDescend(keywords: seq<Entry>, rest: seq<Entry>, m: map<Bytes, Keyword>, topN: nat, a: nat, b: nat)
    requires Top(keywords, rest, m, topN) && a < b < |keywords|
    ensures keywords[a].word != keywords[b].word && keywords[a].weight >= keywords[b].weight
  {
    hide Complete;
    EntriesDiffer(keywords + rest, m, a, b);
    assert (keywords + rest)[..|keywords|] == keywords;
    assert WeightOf(keywords[a]) >= WeightOf(keywords[b]);
  }

  lemma OmittedLighter(keywords: seq<Entry>, rest: seq<Entry>, m: map<Bytes, Keyword>, topN: nat, w: Bytes, k: nat)
    requires Top(keywords, rest, m, topN) && w in m && EntryOf(m, w) !in keywords && k < |keywords|
    ensures keywords[k].weight >= m[w].weight
  {
    hide Complete;
    var b := PlaceOf(keywords + rest, m, w);
    assert (keywords + rest)[k] == keywords[k];
  }

  lemma EntryAt(entries: seq<Entry>, m: map<Bytes, Keyword>, k: nat)
    requires Complete(entries, m) && k < |entries|
    ensures entries[k].word in m && entries[k] == EntryOf(m, entries[k].word)
  {
    assert entries[k] in multiset(entries);
  }

  lemma EntriesDiffer(entries: seq<Entry>, m: map<Bytes, Keyword>, a: nat, b: nat)
    requires Complete(entries, m) && a < b < |entries|
    ensures entries[a].word != entries[b].word
  {
    EntryAt(entries, m, a);
    EntryAt(entries, m, b);
    if entries[a] == entries[b] {
      Twice(entries, a, b);
    }
  }

  lemma PlaceOf(entries: seq<Entry>, m: map<Bytes, Keyword>, w: Bytes) returns (k: nat)
    requires Complete(entries, m) && w in m
    ensures k < |entries| && entries[k] == EntryOf(m, w)
  {
    assert EntryOf(m, w) in multiset(entries);
    k :| 0 <= k < |entries| && entries[k] == EntryOf(m, w);
  }

  class KeywordExtractor {
    const segment: MixSegment
    const stopWords: set<Bytes>
    const idfMap: map<Bytes, real>
    const idfAverage: real

    constructor (segment: MixSegment, stopWords: set<Bytes>, idfMap: map<Bytes, real>, idfAverage: real)
      ensures this.segment == segment && this.stopWords == stopWords
      ensures this.idfMap == idfMap && this.idfAverage == idfAverage
    {
      this.segment, this.stopWords, this.idfMap, this.idfAverage := segment, stopWords, idfMap, idfAverage;
    }

    /**
     The words are illegal exactly when the sentence does not decode. Otherwise the keywords are the topN
     heaviest entries of the table, whose weights are the counts times the inverse document frequencies.
     */
    method Extract(ghost cfg: Config, sentence: Bytes, topN: nat) returns (keywords: Option<seq<Entry>>)
      requires segment.Configured(cfg) && |sentence| < UINT32_LIMIT
      ensures keywords == None <==> !Decode(sentence).ok
      ensures keywords.Some? ==> Flatten(CutWords(cfg, sentence)) == sentence
      ensures keywords.Some? ==>
                var words := CutWords(cfg, sentence);
                exists rest :: Top(keywords.value, rest, Weighted(Table(words, stopWords, |words|)), topN)
      ensures exists ws :: cfg.CutsSentence(sentence, true, ws) && Strings(ws) == CutWords(cfg, sentence)
      ensures keywords.Some? ==> forall e :: e in keywords.value ==>
                e.weight == |e.offsets| as real * (if e.word in idfMap then idfMap[e.word] else idfAverage)
    {
      hide Top, Table, Weighted, Config.CutsSentence;
      cfg.SentenceWordsCut(sentence, true);
      cfg.WordsConserveSentence(sentence, true);
      var cut := segment.Cut(sentence, true);
      var words := GetStringsFromWords(cut);
      var offset, wordmap := Tabulate(words);
      if offset != |sentence| {
        return None;
      }
      var best := Heaviest(wordmap, topN);
      TopWeights(CutWords(cfg, sentence), best, topN);
      keywords := Some(best);
    }

    /** The weight of a keyword: how often it occurs, times its inverse document frequency or the average. */
    lemma TopWeights(words: seq<Bytes>, keywords: seq<Entry>, topN: nat)
      requires exists rest :: Top(keywords, rest, Weighted(Table(words, stopWords, |words|)), topN)
      ensures forall e :: e in keywords ==>
                e.weight == |e.offsets| as real * (if e.word in idfMap then idfMap[e.word] else idfAverage)
    {
      hide Top, Table, Weighted;
      var m := Weighted(Table(words, stopWords, |words|));
      var rest :| Top(keywords, rest, m, topN);
      forall e | e in keywords
        ensures e.weight == |e.offsets| as real * (if e.word in idfMap then idfMap[e.word] else idfAverage)
      {
        var k :| 0 <= k < |keywords| && keywords[k] == e;
        TopEntry(keywords, rest, m, topN, k);
        EntryWeight(words, e.word);
      }
    }

    lemma EntryWeight(words: seq<Bytes>, w: Bytes)
      requires w in Weighted(Table(words, stopWords, |words|))
      ensures var k := Weighted(Table(words, stopWords, |words|))[w];
              k.weight == |k.offsets| as real * (if w in idfMap then idfMap[w] else idfAverage)
    {
      hide Table, Weighted, Increasing, OccursAt, Countable;
      TableOffsets(words, stopWords, |words|, w);
    }

    /** The table as a list, partially sorted and cut to topN. */
    method Heaviest(wordmap: map<Bytes, Keyword>, topN: nat) returns (keywords: seq<Entry>)
      ensures exists rest :: Top(keywords, rest, Weighted(wordmap), topN)
    {
      hide Complete, PartiallySorted;
      var all := Collect(wordmap);
      var n := if topN < |all| then topN else |all|;
      var sorted := PartialSort(all, n);
      SameEntries(all, sorted, Weighted(wordmap));
      keywords := sorted[..n];
      assert sorted == keywords + sorted[n..];
      AllListed(all, Weighted(wordmap));
      assert Top(keywords, sorted[n..], Weighted(wordmap), topN);
    }

    /** The second loop: every entry gets its final weight and its word, in whatever order the map gives them. */
    method Collect(wordmap: map<Bytes, Keyword>) returns (keywords: seq<Entry>)
      ensures Complete(keywords, Weighted(wordmap))
    {
      keywords := [];
      ghost var m := Weighted(wordmap);
      var todo := wordmap.Keys;
      while todo != {}
        invariant todo <= wordmap.Keys && |keywords| + |todo| == |wordmap.Keys|
        invariant forall e: Entry ::
                    multiset(keywords)[e] == if e.word in m && e.word !in todo && e == EntryOf(m, e.word) then 1 else 0
        decreases |todo|
      {
        var w :| w in todo;
        var weight := wordmap[w].weight * Idf(w);
        keywords := keywords + [Entry(w, wordmap[w].offsets, weight)];
        todo := todo - {w};
      }
    }

    /** The counting loop: the running offset is the length of the words so far. */
    method Tabulate(words: seq<Bytes>) returns (offset: nat, wordmap: map<Bytes, Keyword>)
      ensures offset == |Flatten(words)|
      ensures wordmap == Table(words, stopWords, |words|)
    {
      wordmap := map[];
      offset := 0;
      for i := 0 to |words|
        invariant offset == |Flatten(words[..i])|
        invariant wordmap == Table(words, stopWords, i)
      {
        FlattenTake(words, i);
        var t := offset;
        offset := offset + |words[i]|;
        if !IsSingleWord(words[i]) && words[i] !in stopWords {
          var k := if words[i] in wordmap then wordmap[words[i]] else Keyword([], 0.0);
          wordmap := wordmap[words[i] := Keyword(k.offsets + [t], k.weight + 1.0)];
        }
      }
      assert words[..|words|] == words;
    }

    /** The second loop multiplies every weight by the word's inverse document frequency. */
    function Weighted(t: map<Bytes, Keyword>): (r: map<Bytes, Keyword>)
      ensures r.Keys == t.Keys
      ensures forall w :: w in t ==> r[w] == Keyword(t[w].offsets, t[w].weight * Idf(w))
    {
      map w | w in t :: Keyword(t[w].offsets, t[w].weight * Idf(w))
    }

    function Idf(w: Bytes): real {
      if w in idfMap then idfMap[w] else idfAverage
    }
  }
}
