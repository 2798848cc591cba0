/** The search of searcher.hpp over the index: aggregation by document, ranking and rendering. */
module Searcher {
  import opened Text
  import opened Wrappers
  import opened Index
  import Sorting

  /** A document found by a query, with the keywords that found it. */
  datatype Hit = Hit(docId: nat, weight: nat, keywords: seq<string>)

  /** An entry of the answer. */
  datatype Elem = Elem(url: string, title: string, desc: string)

  // ----- the naive scan

  /** The weights of the query tokens in the document, repeated tokens counted again. */
  function Score(jieba: JiebaUtil, doc: DocInfo, tokens: seq<string>): nat {
    if tokens == [] then 0
    else var n := |tokens| - 1; Score(jieba, doc, tokens[..n]) + Weight(jieba, doc, tokens[n])
  }

  /** The query tokens that the document holds. */
  function Matched(jieba: JiebaUtil, doc: DocInfo, tokens: seq<string>): seq<string> {
    if tokens == [] then []
    else
      var n := |tokens| - 1;
      Matched(jieba, doc, tokens[..n]) + if Holds(jieba, doc, tokens[n]) then [tokens[n]] else []
  }

  function HitOf(jieba: JiebaUtil, docs: seq<DocInfo>, d: nat, tokens: seq<string>): Hit
    requires d < |docs|
  {
    Hit(d, Score(jieba, docs[d], tokens), Matched(jieba, docs[d], tokens))
  }

  /** One hit for every document that holds a token, in the order of the documents. */
  function NaiveScan(jieba: JiebaUtil, docs: seq<DocInfo>, tokens: seq<string>, n: nat): seq<Hit>
    requires n <= |docs|
  {
    if n == 0 then []
    else
      NaiveScan(jieba, docs, tokens, n - 1)
      + if Matched(jieba, docs[n - 1], tokens) != [] then [HitOf(jieba, docs, n - 1, tokens)] else []
  }

  /** A document is a hit of the query. */
  predicate IsHit(jieba: JiebaUtil, docs: seq<DocInfo>, tokens: seq<string>, h: Hit) {
    h.docId < |docs| && h == HitOf(jieba, docs, h.docId, tokens) && h.keywords != []
  }

  /** The scan lists every hit once. */
  lemma {:induction false} NaiveScanCounts(jieba: JiebaUtil, docs: seq<DocInfo>, tokens: seq<string>, n: nat, h: Hit)
    requires n <= |docs|
    ensures multiset(NaiveScan(jieba, docs, tokens, n))[h]
         == if h.docId < n && IsHit(jieba, docs, tokens, h) then 1 else 0
  {
    hide NaiveScan, IsHit;
    if n == 0 {
      NothingScanned(jieba, docs, tokens);
    } else {
      NaiveScanCounts(jieba, docs, tokens, n - 1, h);
      NaiveScanStep(jieba, docs, tokens, n, h);
    }
  }

  lemma NothingScanned(jieba: JiebaUtil, docs: seq<DocInfo>, tokens: seq<string>)
    ensures NaiveScan(jieba, docs, tokens, 0) == []
  {}

  /** One more document adds its own hit, if it is one. */
  lemma NaiveScanStep(jieba: JiebaUtil, docs: seq<DocInfo>, tokens: seq<string>, n: nat, h: Hit)
    requires 0 < n <= |docs|
    ensures multiset(NaiveScan(jieba, docs, tokens, n))[h]
         == multiset(NaiveScan(jieba, docs, tokens, n - 1))[h]
            + if IsHit(jieba, docs, tokens, h) && h.docId == n - 1 then 1 else 0
  {
    hide HitOf, IsHit, Matched;
    var before, last := NaiveScan(jieba, docs, tokens, n - 1), HitOf(jieba, docs, n - 1, tokens);
    var found := Matched(jieba, docs[n - 1], tokens) != [];
    assert NaiveScan(jieba, docs, tokens, n) == if found then before + [last] else before;
    LastHit(jieba, docs, tokens, n, h);
    CountLast(before, last, h);
  }

  lemma CountLast<T>(s: seq<T>, last: T, x: T)
    ensures multiset(s + [last])[x] == multiset(s)[x] + if x == last then 1 else 0
  {}

  lemma LastHit(jieba: JiebaUtil, docs: seq<DocInfo>, tokens: seq<string>, n: nat, h: Hit)
    requires 0 < n <= |docs|
    ensures IsHit(jieba, docs, tokens, h) && h.docId == n - 1
       <==> h == HitOf(jieba, docs, n - 1, tokens) && Matched(jieba, docs[n - 1], tokens) != []
    ensures HitOf(jieba, docs, n - 1, tokens).docId == n - 1
  {
    hide Score, Matched;
  }

  /** The matched tokens are the ones that the document holds. */
  lemma {:induction false} MatchedHolds(jieba: JiebaUtil, doc: DocInfo, tokens: seq<string>, t: string)
    ensures t in Matched(jieba, doc, tokens) <==> t in tokens && Holds(jieba, doc, t)
  {
    hide Holds, Weight;
    if tokens != [] {
      var n := |tokens| - 1;
      MatchedHolds(jieba, doc, tokens[..n], t);
      assert tokens == tokens[..n] + [tokens[n]];
    }
  }

  /** A document matches iff its score is positive. */
  lemma {:induction false} MatchedScores(jieba: JiebaUtil, doc: DocInfo, tokens: seq<string>)
    ensures Matched(jieba, doc, tokens) != [] <==> Score(jieba, doc, tokens) > 0
  {
    hide Holds, Weight;
    if tokens != [] {
      MatchedScores(jieba, doc, tokens[..|tokens| - 1]);
      WeightPositive(jieba, doc, tokens[|tokens| - 1]);
    }
  }

  /** The score of tokens one after the other is the sum of their scores. */
  lemma {:induction false} ScoreSum(jieba: JiebaUtil, doc: DocInfo, a: seq<string>, b: seq<string>)
    ensures Score(jieba, doc, a + b) == Score(jieba, doc, a) + Score(jieba, doc, b)
    decreases |b|
  {
    hide Weight;
    if b == [] {
      assert a + b == a;
    } else {
      var n := |b| - 1;
      ScoreSum(jieba, doc, a, b[..n]);
      assert (a + b)[..|a| + n] == a + b[..n];
    }
  }

  /** A token scores 40 for each time it is a keyword of the title and 1 for each time it is one of the content. */
  lemma ScoreOne(jieba: JiebaUtil, doc: DocInfo, t: string)
    ensures Score(jieba, doc, [t])
         == 40 * multiset(jieba.Keywords(doc.title))[t] + multiset(jieba.Keywords(doc.content))[t]
  {
    assert [t][..0] == [];
  }

  /** The first of the tokens that the document holds. */
  ghost predicate FirstHeld(jieba: JiebaUtil, doc: DocInfo, tokens: seq<string>, t: string) {
    exists i :: 0 <= i < |tokens| && HeldFirstAt(jieba, doc, tokens, i) && tokens[i] == t
  }

  ghost predicate HeldFirstAt(jieba: JiebaUtil, doc: DocInfo, tokens: seq<string>, i: nat)
    requires i < |tokens|
  {
    Holds(jieba, doc, tokens[i]) && forall k :: 0 <= k < i ==> !Holds(jieba, doc, tokens[k])
  }

  lemma {:induction false} MatchedFirst(jieba: JiebaUtil, doc: DocInfo, tokens: seq<string>)
    ensures Matched(jieba, doc, tokens) != [] ==> FirstHeld(jieba, doc, tokens, Matched(jieba, doc, tokens)[0])
  {
    hide Holds;
    if tokens != [] {
      var n := |tokens| - 1;
      var before := Matched(jieba, doc, tokens[..n]);
      MatchedFirst(jieba, doc, tokens[..n]);
      if before != [] {
        var i :| 0 <= i < n && HeldFirstAt(jieba, doc, tokens[..n], i) && tokens[..n][i] == before[0];
        assert HeldFirstAt(jieba, doc, tokens, i);
      } else if Holds(jieba, doc, tokens[n]) {
        forall k | 0 <= k < n
          ensures !Holds(jieba, doc, tokens[k])
        {
          assert tokens[k] in tokens[..n];
          MatchedHolds(jieba, doc, tokens[..n], tokens[k]);
        }
        assert HeldFirstAt(jieba, doc, tokens, n);
      }
    }
  }

  // ----- aggregation

  type Hits = map<nat, Hit>

  function Entry(m: Hits, d: nat): Hit { if d in m then m[d] else Hit(d, 0, []) }

  /** The map holds the hits of the tokens so far. */
  ghost predicate Aggregated(jieba: JiebaUtil, docs: seq<DocInfo>, tokens: seq<string>, m: Hits) {
    && (forall d: nat :: Entry(m, d) == if d < |docs| then HitOf(jieba, docs, d, tokens) else Hit(d, 0, []))
    && (forall d :: d in m ==> m[d].keywords != [])
  }

  /** The entry with one more posting. */
  function Plus(h: Hit, kw: string, weight: nat): Hit { Hit(h.docId, h.weight + weight, h.keywords + [kw]) }

  /** The map after some postings of a list: exactly their documents have gained. */
  ghost predicate Gained(before: Hits, m: Hits, jieba: JiebaUtil, docs: seq<DocInfo>, kw: string, seen: set<nat>) {
    && (forall d: nat ::
          Entry(m, d)
          == if d in seen && d < |docs| then Plus(Entry(before, d), kw, Weight(jieba, docs[d], kw))
             else Entry(before, d))
    && (forall d :: d in m ==> m[d].keywords != [])
  }

  lemma GainedOne(before: Hits, m: Hits, jieba: JiebaUtil, docs: seq<DocInfo>, kw: string, seen: set<nat>,
                  e: InvertedElem)
    requires EntryOf(jieba, docs, kw, e) && e.docId !in seen && Gained(before, m, jieba, docs, kw, seen)
    ensures var m' := m[e.docId := Plus(Entry(m, e.docId), e.keyword, e.weight)];
            Gained(before, m', jieba, docs, kw, seen + {e.docId})
  {
    hide Holds, Weight;
  }

  lemma EntryAdded(p: seq<InvertedElem>, k: nat, d: nat)
    requires k < |p| && Increasing(p)
    ensures HasEntry(p[..k + 1], d) <==> HasEntry(p[..k], d) || d == p[k].docId
    ensures d == p[k].docId ==> !HasEntry(p[..k], d)
  {
    assert p[..k + 1][k] == p[k];
    if HasEntry(p[..k], d) {
      var j :| 0 <= j < k && p[..k][j].docId == d;
      assert p[..k + 1][j].docId == d;
    }
  }

  /** One more token adds its weight, and itself if the document holds it. */
  lemma HitGrows(jieba: JiebaUtil, docs: seq<DocInfo>, tokens: seq<string>, i: nat, d: nat)
    requires i < |tokens| && d < |docs|
    ensures var h, kw := HitOf(jieba, docs, d, tokens[..i]), tokens[i];
            HitOf(jieba, docs, d, tokens[..i + 1])
            == if Holds(jieba, docs[d], kw) then Plus(h, kw, Weight(jieba, docs[d], kw)) else h
  {
    hide Holds, Weight;
    assert tokens[..i + 1][..i] == tokens[..i];
    WeightPositive(jieba, docs[d], tokens[i]);
  }

  /** After a whole posting list the map holds the hits of one more token. */
  lemma TokenAggregated(jieba: JiebaUtil, docs: seq<DocInfo>, tokens: seq<string>, i: nat, before: Hits, m: Hits,
                        seen: set<nat>)
    requires Numbered(docs) && i < |tokens| && Aggregated(jieba, docs, tokens[..i], before)
    requires Gained(before, m, jieba, docs, tokens[i], seen)
    requires forall d: nat :: d in seen <==> HasEntry(Postings(jieba, docs, tokens[i]), d)
    ensures Aggregated(jieba, docs, tokens[..i + 1], m)
  {
    hide Postings, HitOf, Plus, Holds, Weight, HasEntry;
    var kw := tokens[i];
    PostingsExact(jieba, docs, kw);
    var p := Postings(jieba, docs, kw);
    forall d: nat
      ensures d < |docs| ==> (HasEntry(p, d) <==> Holds(jieba, docs[d], kw))
    {
      EntryHolds(jieba, docs, kw, p, d);
    }
    forall d: nat | d < |docs|
      ensures Entry(m, d) == HitOf(jieba, docs, d, tokens[..i + 1])
    {
      HitGrows(jieba, docs, tokens, i, d);
    }
  }

  lemma EntryHolds(jieba: JiebaUtil, docs: seq<DocInfo>, kw: string, p: seq<InvertedElem>, d: nat)
    requires forall k :: 0 <= k < |p| ==> EntryOf(jieba, docs, kw, p[k])
    ensures HasEntry(p, d) ==> d < |docs| && Holds(jieba, docs[d], kw)
  {
    hide Holds, Weight;
  }

  // ----- ranking

  predicate Sorted(hits: seq<Hit>) {
    forall a, b :: 0 <= a < b < |hits| ==> hits[a].weight >= hits[b].weight
  }

  /** Any correct sort by descending weight; the order of equal weights is not promised. */
  method SortByWeight(hits: seq<Hit>) returns (r: seq<Hit>)
    ensures Sorted(r) && multiset(r) == multiset(hits)
  {
    var weight := (h: Hit) => h.weight as real;
    r := Sorting.Sort(hits, weight);
    assert forall a, b :: 0 <= a < b < |r| ==> weight(r[a]) >= weight(r[b]);
  }

  // ----- the excerpt

  const PREV_STEP: nat := 50
  const NEXT_STEP: nat := 100

  /** The bounds of the excerpt around a position; the last byte of the content is never part of it. */
  function Window(content: string, pos: nat): (w: (nat, nat))
    requires pos < |content|
    ensures w.0 <= pos && w.1 < |content|
  {
    (if pos > PREV_STEP then pos - PREV_STEP else 0,
     if pos + NEXT_STEP < |content| - 1 then pos + NEXT_STEP else |content| - 1)
  }

  const NO_KEYWORD: string := "keyword does not exist!"

  function GetDesc(content: string, keyword: string): string {
    var found := Find(Lower(content), Lower(keyword));
    if found == None || found.value == |content| then NO_KEYWORD
    else
      var (begin, end) := Window(content, found.value);
      if begin >= end then "nothing!"
      else (if begin > 0 then "..." else "") + content[begin..end] + (if end < |content| then "..." else "")
  }

  /** Both texts agree at k up to case. */
  predicate AgreeAt(content: string, keyword: string, k: nat) {
    k + |keyword| <= |content| && Lower(content[k..k + |keyword|]) == Lower(keyword)
  }

  lemma LowerAt(content: string, keyword: string, k: nat)
    ensures At(Lower(content), Lower(keyword), k) <==> AgreeAt(content, keyword, k)
  {
    if k + |keyword| <= |content| {
      assert Lower(content)[k..k + |keyword|] == Lower(content[k..k + |keyword|]);
    }
  }

  /**
   The excerpt shows the first occurrence of the keyword in whole exactly when that is no longer than the
   excerpt reaches and does not end the content.
   */
  lemma DescShowsKeyword(content: string, keyword: string, pos: nat)
    requires keyword != "" && AgreeAt(content, keyword, pos)
    requires forall k :: 0 <= k < pos ==> !AgreeAt(content, keyword, k)
    ensures var (begin, end) := Window(content, pos);
            && (pos + |keyword| <= end <==> |keyword| <= NEXT_STEP && pos + |keyword| < |content|)
            && (begin < end ==>
                  GetDesc(content, keyword)
                  == (if begin > 0 then "..." else "") + content[begin..end] + "...")
            && (begin >= end <==> |content| == 1)
  {
    hide Find, At;
    forall k: nat
      ensures At(Lower(content), Lower(keyword), k) <==> AgreeAt(content, keyword, k)
    {
      LowerAt(content, keyword, k);
    }
    FindIsFirst(Lower(content), Lower(keyword), pos);
  }

  /** A keyword that does not occur in the content is reported, and only that. */
  lemma DescMissing(content: string, keyword: string)
    requires keyword != ""
    ensures GetDesc(content, keyword) == NO_KEYWORD <==> forall k: nat :: !AgreeAt(content, keyword, k)
  {
    forall k: nat
      ensures At(Lower(content), Lower(keyword), k) <==> AgreeAt(content, keyword, k)
    {
      LowerAt(content, keyword, k);
    }
    var found := Find(Lower(content), Lower(keyword));
    FindIsFirst(Lower(content), Lower(keyword), if found.Some? then found.value else 0);
    if found.Some? {
      assert AgreeAt(content, keyword, found.value);
      var desc := GetDesc(content, keyword);
      var (begin, end) := Window(content, found.value);
      assert begin < end ==> desc[|desc| - 1] == '.';
      assert NO_KEYWORD[|NO_KEYWORD| - 1] == '!' && |NO_KEYWORD| != |"nothing!"|;
    }
  }

  /** A keyword that ends the content is cut. */
  lemma LastKeywordCut()
    ensures GetDesc("ab", "b") == "a..."
  {
    var content, keyword := "ab", "b";
    assert content[1..2] == keyword && Lower(content[0..1]) != Lower(keyword) by {
      assert Lower(content[0..1])[0] == 'a' && Lower(keyword)[0] == 'b';
    }
    DescShowsKeyword(content, keyword, 1);
    assert content[0..1] == "a";
  }

  // ----- the program

  function Rendered(docs: seq<DocInfo>, h: Hit): Elem
    requires h.docId < |docs| && h.keywords != []
  {
    var doc := docs[h.docId];
    Elem(doc.url, if doc.title == "" then "TITLE" else doc.title, GetDesc(doc.content, h.keywords[0]))
  }

  predicate Renderable(docs: seq<DocInfo>, hits: seq<Hit>) {
    forall h :: h in hits ==> h.docId < |docs| && h.keywords != []
  }

  function RenderedAll(docs: seq<DocInfo>, hits: seq<Hit>): (root: seq<Elem>)
    requires Renderable(docs, hits)
    ensures |root| == |hits| && forall k :: 0 <= k < |hits| ==> root[k] == Rendered(docs, hits[k])
  {
    if hits == [] then []
    else
      var n := |hits| - 1;
      assert forall h :: h in hits[..n] ==> h in hits;
      RenderedAll(docs, hits[..n]) + [Rendered(docs, hits[n])]
  }

  const NOTHING: Elem := Elem("http://119.3.223.238:8080", "Search nothing!", "Search nothing!")

  /** The ranking of a query: the naive scan, sorted by descending weight. */
  ghost predicate Ranking(jieba: JiebaUtil, docs: seq<DocInfo>, tokens: seq<string>, hits: seq<Hit>) {
    Sorted(hits) && multiset(hits) == multiset(NaiveScan(jieba, docs, tokens, |docs|))
  }

  /** The answer to a query: its ranking, rendered in order. */
  ghost predicate Answers(jieba: JiebaUtil, docs: seq<DocInfo>, tokens: seq<string>, hits: seq<Hit>, root: seq<Elem>) {
    && Ranking(jieba, docs, tokens, hits) && Renderable(docs, hits)
    && root == if hits == [] then [NOTHING] else RenderedAll(docs, hits)
  }

  /** Every document of a ranking can be looked up, and has a keyword. */
  lemma RankingRenderable(jieba: JiebaUtil, docs: seq<DocInfo>, tokens: seq<string>, hits: seq<Hit>)
    requires Ranking(jieba, docs, tokens, hits)
    ensures Renderable(docs, hits)
  {
    forall h | h in hits
      ensures h.docId < |docs| && h.keywords != []
    {
      assert multiset(hits)[h] > 0;
      NaiveScanCounts(jieba, docs, tokens, |docs|, h);
    }
  }

  predicate HoldsSome(jieba: JiebaUtil, doc: DocInfo, tokens: seq<string>) {
    exists t :: t in tokens && Holds(jieba, doc, t)
  }

  predicate Lists(hits: seq<Hit>, d: nat) { exists k :: 0 <= k < |hits| && hits[k].docId == d }

  predicate DistinctIds(hits: seq<Hit>) {
    forall a, b :: 0 <= a < b < |hits| ==> hits[a].docId != hits[b].docId
  }

  /** The weight is a sum over the tokens, and each adds 40 or 1 for every place where it is a keyword. */
  ghost predicate Weighs(jieba: JiebaUtil, doc: DocInfo, tokens: seq<string>, h: Hit) {
    && (forall i :: 0 <= i <= |tokens| ==>
          h.weight == Score(jieba, doc, tokens[..i]) + Score(jieba, doc, tokens[i..]))
    && (forall t: string :: Score(jieba, doc, [t])
          == 40 * multiset(jieba.Keywords(doc.title))[t] + multiset(jieba.Keywords(doc.content))[t])
  }

  lemma HitWeighs(jieba: JiebaUtil, docs: seq<DocInfo>, tokens: seq<string>, h: Hit)
    requires IsHit(jieba, docs, tokens, h)
    ensures h.docId < |docs| && Weighs(jieba, docs[h.docId], tokens, h)
  {
    hide Score, Matched, JiebaUtil.Keywords;
    var doc := docs[h.docId];
    forall i | 0 <= i <= |tokens|
      ensures h.weight == Score(jieba, doc, tokens[..i]) + Score(jieba, doc, tokens[i..])
    {
      ScoreSum(jieba, doc, tokens[..i], tokens[i..]);
      assert tokens[..i] + tokens[i..] == tokens;
    }
    forall t: string
      ensures Score(jieba, doc, [t])
           == 40 * multiset(jieba.Keywords(doc.title))[t] + multiset(jieba.Keywords(doc.content))[t]
    {
      ScoreOne(jieba, doc, t);
    }
  }

  /** A ranking, said of its documents: each at most once, there iff it holds a token, with its score. */
  lemma RankingExact(jieba: JiebaUtil, docs: seq<DocInfo>, tokens: seq<string>, hits: seq<Hit>)
    requires Ranking(jieba, docs, tokens, hits)
    ensures DistinctIds(hits)
    ensures forall d :: 0 <= d < |docs| ==> (Lists(hits, d) <==> HoldsSome(jieba, docs[d], tokens))
    ensures forall k :: 0 <= k < |hits| ==> IsHit(jieba, docs, tokens, hits[k]) && hits[k].weight > 0
    ensures forall k :: 0 <= k < |hits| ==>
              hits[k].docId < |docs| && Weighs(jieba, docs[hits[k].docId], tokens, hits[k])
  {
    hide Ranking, IsHit, Lists, HoldsSome, Weighs;
    forall k | 0 <= k < |hits|
      ensures IsHit(jieba, docs, tokens, hits[k]) && hits[k].weight > 0
      ensures hits[k].docId < |docs| && Weighs(jieba, docs[hits[k].docId], tokens, hits[k])
    {
      RankedIsHit(jieba, docs, tokens, hits, k);
      HitWeighs(jieba, docs, tokens, hits[k]);
    }
    forall a, b | 0 <= a < b < |hits|
      ensures hits[a].docId != hits[b].docId
    {
      RankedOnce(jieba, docs, tokens, hits, a, b);
    }
    forall d | 0 <= d < |docs|
      ensures Lists(hits, d) <==> HoldsSome(jieba, docs[d], tokens)
    {
      ListedIff(jieba, docs, tokens, hits, d);
    }
  }

  lemma RankedIsHit(jieba: JiebaUtil, docs: seq<DocInfo>, tokens: seq<string>, hits: seq<Hit>, k: nat)
    requires Ranking(jieba, docs, tokens, hits) && k < |hits|
    ensures IsHit(jieba, docs, tokens, hits[k]) && hits[k].weight > 0
  {
    hide NaiveScan, Sorted, Score, Matched;
    assert hits[k] in multiset(hits);
    NaiveScanCounts(jieba, docs, tokens, |docs|, hits[k]);
    MatchedScores(jieba, docs[hits[k].docId], tokens);
  }

  lemma RankedOnce(jieba: JiebaUtil, docs: seq<DocInfo>, tokens: seq<string>, hits: seq<Hit>, a: nat, b: nat)
    requires Ranking(jieba, docs, tokens, hits) && a < b < |hits|
    ensures hits[a].docId != hits[b].docId
  {
    hide NaiveScan, IsHit, Sorted;
    NaiveScanCounts(jieba, docs, tokens, |docs|, hits[a]);
    RankedIsHit(jieba, docs, tokens, hits, a);
    RankedIsHit(jieba, docs, tokens, hits, b);
    if hits[a].docId == hits[b].docId {
      SameHit(jieba, docs, tokens, hits[a], hits[b]);
      Twice(hits, a, b);
    }
  }

  lemma SameHit(jieba: JiebaUtil, docs: seq<DocInfo>, tokens: seq<string>, g: Hit, h: Hit)
    requires IsHit(jieba, docs, tokens, g) && IsHit(jieba, docs, tokens, h) && g.docId == h.docId
    ensures g == h
  {
    hide HitOf;
  }

  lemma ListedIff(jieba: JiebaUtil, docs: seq<DocInfo>, tokens: seq<string>, hits: seq<Hit>, d: nat)
    requires Ranking(jieba, docs, tokens, hits) && d < |docs|
    ensures Lists(hits, d) <==> HoldsSome(jieba, docs[d], tokens)
  {
    hide Score, Matched, NaiveScan, Sorted, HoldsSome;
    var h := HitOf(jieba, docs, d, tokens);
    MatchedNonempty(jieba, docs[d], tokens);
    if h.keywords != [] {
      NaiveScanCounts(jieba, docs, tokens, |docs|, h);
      assert h in multiset(hits);
      assert h in hits;
      var k :| 0 <= k < |hits| && hits[k] == h;
      assert hits[k].docId == d;
    } else if Lists(hits, d) {
      var k :| 0 <= k < |hits| && hits[k].docId == d;
      RankedIsHit(jieba, docs, tokens, hits, k);
    }
  }

  lemma MatchedNonempty(jieba: JiebaUtil, doc: DocInfo, tokens: seq<string>)
    ensures Matched(jieba, doc, tokens) != [] <==> HoldsSome(jieba, doc, tokens)
  {
    var m := Matched(jieba, doc, tokens);
    if m != [] {
      MatchedHolds(jieba, doc, tokens, m[0]);
    }
    forall t | t in tokens && Holds(jieba, doc, t)
      ensures t in m
    {
      MatchedHolds(jieba, doc, tokens, t);
    }
  }

  // ----- the answer, said of its entries

  /** The entry shows the document: its url, its title, and an excerpt around the first token it holds. */
  ghost predicate Shows(jieba: JiebaUtil, doc: DocInfo, tokens: seq<string>, e: Elem) {
    && e.url == doc.url
    && e.title == (if doc.title == "" then "TITLE" else doc.title)
    && exists t :: FirstHeld(jieba, doc, tokens, t) && e.desc == GetDesc(doc.content, t)
  }

  /** The documents, each once, that hold a token, the ones with the higher score first. */
  ghost predicate Found(jieba: JiebaUtil, docs: seq<DocInfo>, tokens: seq<string>, ids: seq<nat>) {
    && (forall k :: 0 <= k < |ids| ==> ids[k] < |docs|)
    && (forall a, b :: 0 <= a < b < |ids| ==> ids[a] != ids[b])
    && (forall d: nat :: d < |docs| ==> (d in ids <==> HoldsSome(jieba, docs[d], tokens)))
    && (forall a, b :: 0 <= a < b < |ids| ==>
          Score(jieba, docs[ids[a]], tokens) >= Score(jieba, docs[ids[b]], tokens))
  }

  /** The answer shows the found documents in order, or says that there is none. */
  ghost predicate AnswerShows(jieba: JiebaUtil, docs: seq<DocInfo>, tokens: seq<string>, ids: seq<nat>,
                              root: seq<Elem>) {
    && Found(jieba, docs, tokens, ids)
    && if ids == [] then root == [Elem("http://119.3.223.238:8080", "Search nothing!", "Search nothing!")]
       else |root| == |ids| && forall k :: 0 <= k < |ids| ==> Shows(jieba, docs[ids[k]], tokens, root[k])
  }

  ghost function Ids(hits: seq<Hit>): (ids: seq<nat>)
    ensures |ids| == |hits| && forall k :: 0 <= k < |hits| ==> ids[k] == hits[k].docId
  {
    seq(|hits|, k requires 0 <= k < |hits| => hits[k].docId)
  }

  lemma RankingFound(jieba: JiebaUtil, docs: seq<DocInfo>, tokens: seq<string>, hits: seq<Hit>)
    requires Ranking(jieba, docs, tokens, hits)
    ensures Found(jieba, docs, tokens, Ids(hits))
  {
    hide Score, Matched, HoldsSome, NaiveScan, Weighs;
    RankingExact(jieba, docs, tokens, hits);
    var ids := Ids(hits);
    forall d: nat | d < |docs|
      ensures d in ids <==> HoldsSome(jieba, docs[d], tokens)
    {
      assert Lists(hits, d) <==> d in ids;
    }
  }

  lemma RenderedShows(jieba: JiebaUtil, docs: seq<DocInfo>, tokens: seq<string>, h: Hit)
    requires IsHit(jieba, docs, tokens, h)
    ensures h.docId < |docs| && Shows(jieba, docs[h.docId], tokens, Rendered(docs, h))
  {
    hide Matched, FirstHeld, Score, GetDesc;
    MatchedFirst(jieba, docs[h.docId], tokens);
  }

  /** What is rendered from a ranking shows the found documents. */
  lemma AnswersShow(jieba: JiebaUtil, docs: seq<DocInfo>, tokens: seq<string>, hits: seq<Hit>, root: seq<Elem>)
    requires Answers(jieba, docs, tokens, hits, root)
    ensures AnswerShows(jieba, docs, tokens, Ids(hits), root)
  {
    hide Found, Shows, Rendered, IsHit, Ranking;
    RankingFound(jieba, docs, tokens, hits);
    forall k | 0 <= k < |hits|
      ensures hits[k].docId < |docs| && Shows(jieba, docs[hits[k].docId], tokens, Rendered(docs, hits[k]))
    {
      RankedIsHit(jieba, docs, tokens, hits, k);
      RenderedShows(jieba, docs, tokens, hits[k]);
    }
  }

  class Searcher {
    const index: Index
    const jieba: JiebaUtil

    constructor (index: Index)
      ensures this.index == index && jieba == index.jieba
    {
      this.index, jieba := index, index.jieba;
    }

    ghost predicate Valid()
      reads index
    {
      jieba == index.jieba && index.Valid()
    }

    /** Builds the index from the parser's file. */
    method InitSearcher(input: Option<string>)
      requires Valid() && (input.Some? ==> Defined(input.value))
      modifies index
      ensures Valid()
      ensures index.forwardIndex
           == old(index.forwardIndex) + if input.Some? then Docs(input.value, |old(index.forwardIndex)|) else []
    {
      var ok := index.BuildIndex(input);
    }

    /** The answer renders a ranking of the query's lower-cased tokens, or says that nothing was found. */
    method Search(query: string) returns (root: seq<Elem>)
      requires Valid()
      ensures exists hits :: Answers(jieba, index.forwardIndex, LowerAll(jieba.cut(query)), hits, root)
      ensures exists ids :: AnswerShows(jieba, index.forwardIndex, LowerAll(jieba.cut(query)), ids, root)
    {
      hide Renderable, AnswerShows;
      var keywords := jieba.cut(query);
      var invertedElemOutMap := Aggregate(keywords);
      ghost var tokens := LowerAll(keywords);
      var all := Collect(tokens, invertedElemOutMap);
      all := SortByWeight(all);
      RankingRenderable(jieba, index.forwardIndex, tokens, all);
      if all == [] {
        root := [NOTHING];
      } else {
        root := Render(all);
      }
      assert Answers(jieba, index.forwardIndex, tokens, all, root);
      AnswersShow(jieba, index.forwardIndex, tokens, all, root);
    }

    method Aggregate(keywords: seq<string>) returns (m: Hits)
      requires Valid()
      ensures Aggregated(jieba, index.forwardIndex, LowerAll(keywords), m)
    {
      m := map[];
      ghost var tokens, docs := LowerAll(keywords), index.forwardIndex;
      assert tokens[..0] == [];
      for i := 0 to |keywords|
        invariant Aggregated(jieba, docs, tokens[..i], m)
      {
        var word := Lower(keywords[i]);
        var list := index.GetInvertedList(word);
        ghost var before := m;
        m := AddList(m, word, if list.Some? then list.value else []);
        ghost var seen := DocIds(Postings(jieba, docs, word));
        TokenAggregated(jieba, docs, tokens, i, before, m, seen);
      }
      assert tokens[..|keywords|] == tokens;
    }

    /** Every posting adds to the entry of its document. */
    method AddList(before: Hits, ghost word: string, list: seq<InvertedElem>) returns (m: Hits)
      requires Valid() && list == Postings(jieba, index.forwardIndex, word)
      requires forall d :: d in before ==> before[d].keywords != []
      ensures Gained(before, m, jieba, index.forwardIndex, word, DocIds(list))
    {
      hide Postings, EntryOf, Holds, Weight;
      ghost var docs := index.forwardIndex;
      PostingsExact(jieba, docs, word);
      m := before;
      assert list[..0] == [];
      for k := 0 to |list|
        invariant Gained(before, m, jieba, docs, word, DocIds(list[..k]))
      {
        var elem := list[k];
        NextId(list, k);
        GainedOne(before, m, jieba, docs, word, DocIds(list[..k]), elem);
        m := m[elem.docId := Plus(Entry(m, elem.docId), elem.keyword, elem.weight)];
      }
      assert list[..|list|] == list;
    }

    /** The map's entries, in whatever order it gives them. */
    method Collect(ghost tokens: seq<string>, m: Hits) returns (all: seq<Hit>)
      requires Valid() && Aggregated(jieba, index.forwardIndex, tokens, m)
      ensures multiset(all) == multiset(NaiveScan(jieba, index.forwardIndex, tokens, |index.forwardIndex|))
    {
      all := [];
      var todo := m.Keys;
      while todo != {}
        invariant todo <= m.Keys
        invariant forall h: Hit ::
                    multiset(all)[h] == if h.docId in m && h.docId !in todo && m[h.docId] == h then 1 else 0
        decreases |todo|
      {
        var d :| d in todo;
        AggregatedId(jieba, index.forwardIndex, tokens, m, d);
        all := all + [m[d]];
        todo := todo - {d};
      }
      CollectedAll(jieba, index.forwardIndex, tokens, m, all);
    }

    method Render(hits: seq<Hit>) returns (root: seq<Elem>)
      requires Valid() && Renderable(index.forwardIndex, hits)
      ensures root == RenderedAll(index.forwardIndex, hits)
    {
      root := [];
      for k := 0 to |hits|
        invariant |root| == k && forall j :: 0 <= j < k ==> root[j] == Rendered(index.forwardIndex, hits[j])
      {
        var doc := index.GetForwardIndex(hits[k].docId);
        var title := if doc.value.title == "" then "TITLE" else doc.value.title;
        root := root + [Elem(doc.value.url, title, GetDesc(doc.value.content, hits[k].keywords[0]))];
      }
    }
  }

  ghost function DocIds(p: seq<InvertedElem>): (ids: set<nat>)
    ensures forall d: nat :: d in ids <==> HasEntry(p, d)
  {
    set k | 0 <= k < |p| :: p[k].docId
  }

  lemma NextId(p: seq<InvertedElem>, k: nat)
    requires k < |p| && Increasing(p)
    ensures p[k].docId !in DocIds(p[..k]) && DocIds(p[..k + 1]) == DocIds(p[..k]) + {p[k].docId}
  {
    forall d: nat
      ensures d in DocIds(p[..k + 1]) <==> d in DocIds(p[..k]) || d == p[k].docId
    {
      EntryAdded(p, k, d);
    }
    EntryAdded(p, k, p[k].docId);
  }

  lemma AggregatedId(jieba: JiebaUtil, docs: seq<DocInfo>, tokens: seq<string>, m: Hits, d: nat)
    requires Aggregated(jieba, docs, tokens, m) && d in m
    ensures m[d].docId == d
  {
    hide Score, Matched;
    assert Entry(m, d) == m[d];
  }

  /** The entries of the map are the hits of the naive scan. */
  lemma CollectedAll(jieba: JiebaUtil, docs: seq<DocInfo>, tokens: seq<string>, m: Hits, all: seq<Hit>)
    requires Aggregated(jieba, docs, tokens, m)
    requires forall h: Hit :: multiset(all)[h] == if h.docId in m && m[h.docId] == h then 1 else 0
    ensures multiset(all) == multiset(NaiveScan(jieba, docs, tokens, |docs|))
  {
    hide Score, Matched;
    forall h: Hit
      ensures multiset(all)[h] == multiset(NaiveScan(jieba, docs, tokens, |docs|))[h]
    {
      NaiveScanCounts(jieba, docs, tokens, |docs|, h);
      assert Entry(m, h.docId) == if h.docId < |docs| then HitOf(jieba, docs, h.docId, tokens) else Hit(h.docId, 0, []);
    }
  }
}
