/** The forward and the inverted index of index.hpp, with the stop-word filter of util.hpp. */
module Index {
  import opened Text
  import opened Wrappers
  import Records

  datatype DocInfo = DocInfo(title: string, content: string, url: string, docId: nat)

  datatype InvertedElem = InvertedElem(docId: nat, keyword: string, weight: nat)

  datatype KeywordCnt = KeywordCnt(titleCnt: nat, contentCnt: nat)

  const TITLE_WEIGHT: nat := 40
  const CONTENT_WEIGHT: nat := 1

  /** A word in lower case. */
  function Lower(s: string): (r: string)
    ensures |r| == |s| && forall k :: 0 <= k < |s| ==> r[k] == ToLower(s[k])
  {
    seq(|s|, k requires 0 <= k < |s| => ToLower(s[k]))
  }

  /** The same letter, or the upper and the lower case of one of the 26 letters. */
  predicate SameLetter(a: char, b: char) {
    || a == b
    || ('A' <= a <= 'Z' && b as int == a as int + 32)
    || ('A' <= b <= 'Z' && a as int == b as int + 32)
  }

  /** Lower case forgets exactly the case of letters, and leaves no capital. */
  lemma LowerExact(a: string, b: string)
    ensures Lower(a) == Lower(b) <==> |a| == |b| && forall k :: 0 <= k < |a| ==> SameLetter(a[k], b[k])
    ensures forall k :: 0 <= k < |a| ==> !('A' <= Lower(a)[k] <= 'Z')
    ensures (forall k :: 0 <= k < |a| ==> !('A' <= a[k] <= 'Z')) ==> Lower(a) == a
  {
    if |a| == |b| && forall k :: 0 <= k < |a| ==> SameLetter(a[k], b[k]) {
      assert forall k :: 0 <= k < |a| ==> Lower(a)[k] == Lower(b)[k];
    }
    if Lower(a) == Lower(b) {
      forall k | 0 <= k < |a|
        ensures SameLetter(a[k], b[k])
      {
        assert Lower(a)[k] == Lower(b)[k];
      }
    }
  }

  // ----- cutting text into keywords

  class JiebaUtil {
    /** The segmenter's cut for search. */
    const cut: string -> seq<string>
    const stopKeywords: set<string>

    constructor (cut: string -> seq<string>, stopKeywords: set<string>)
      ensures this.cut == cut && this.stopKeywords == stopKeywords
    {
      this.cut, this.stopKeywords := cut, stopKeywords;
    }

    predicate IsStop(word: string) { Lower(word) in stopKeywords }

    function NoStop(words: seq<string>): seq<string> {
      if words == [] then []
      else (if IsStop(words[0]) then [] else [words[0]]) + NoStop(words[1..])
    }

    /** The erasing loop leaves the words that are not stop words, in order. */
    method CutStringNoStop(src: string) returns (out: seq<string>)
      ensures out == NoStop(cut(src))
    {
      hide NoStop;
      out := cut(src);
      var iter := 0;
      while iter < |out|
        invariant iter <= |out| && out[..iter] + NoStop(out[iter..]) == NoStop(cut(src))
        decreases |out| - iter
      {
        NoStopStep(out, iter);
        if IsStop(out[iter]) {
          Erased(out, iter);
          out := out[..iter] + out[iter + 1..];
        } else {
          iter := iter + 1;
        }
      }
      NoStopStep([], 0);
      assert out[..iter] == out && out[iter..] == [];
    }

    lemma NoStopStep(words: seq<string>, i: nat)
      ensures i < |words| ==>
                words[..i] + NoStop(words[i..])
                == (if IsStop(words[i]) then words[..i] else words[..i + 1]) + NoStop(words[i + 1..])
      ensures NoStop([]) == []
    {
      if i < |words| {
        assert words[i..][1..] == words[i + 1..];
        assert words[..i + 1] == words[..i] + [words[i]];
      }
    }

    /** The keywords a text is indexed under: its words in lower case, without stop words. */
    function Keywords(text: string): seq<string> { LowerAll(NoStop(cut(text))) }
  }

  lemma Erased<T>(s: seq<T>, i: nat)
    requires i < |s|
    ensures var r := s[..i] + s[i + 1..]; r[..i] == s[..i] && r[i..] == s[i + 1..]
  {}

  function LowerAll(words: seq<string>): (r: seq<string>)
    ensures |r| == |words| && forall k :: 0 <= k < |words| ==> r[k] == Lower(words[k])
  {
    if words == [] then [] else [Lower(words[0])] + LowerAll(words[1..])
  }

  /** A keyword is a lower-cased word of the text that is no stop word, as often as it stands there. */
  lemma {:induction false} KeywordsExact(jieba: JiebaUtil, words: seq<string>, kw: string)
    ensures multiset(LowerAll(jieba.NoStop(words)))[kw]
         == if kw in jieba.stopKeywords then 0 else multiset(LowerAll(words))[kw]
  {
    if words != [] {
      var first, rest := words[0], words[1..];
      KeywordsExact(jieba, rest, kw);
      var kept := jieba.NoStop(rest);
      assert LowerAll(words) == [Lower(first)] + LowerAll(rest);
      if jieba.IsStop(first) {
        assert jieba.NoStop(words) == kept;
      } else {
        assert jieba.NoStop(words) == [first] + kept;
        LowerFirst(first, kept);
      }
    }
  }

  lemma LowerFirst(first: string, rest: seq<string>)
    ensures LowerAll([first] + rest) == [Lower(first)] + LowerAll(rest)
  {
    assert ([first] + rest)[1..] == rest;
  }

  // ----- what the index holds

  /** How often a keyword occurs in a text. */
  function Occurrences(jieba: JiebaUtil, text: string, kw: string): nat { multiset(jieba.Keywords(text))[kw] }

  function Weight(jieba: JiebaUtil, doc: DocInfo, kw: string): nat {
    TITLE_WEIGHT * Occurrences(jieba, doc.title, kw) + CONTENT_WEIGHT * Occurrences(jieba, doc.content, kw)
  }

  predicate Holds(jieba: JiebaUtil, doc: DocInfo, kw: string) {
    kw in jieba.Keywords(doc.title) || kw in jieba.Keywords(doc.content)
  }

  /** A keyword weighs something exactly in the documents that hold it. */
  lemma WeightPositive(jieba: JiebaUtil, doc: DocInfo, kw: string)
    ensures Holds(jieba, doc, kw) <==> Weight(jieba, doc, kw) > 0
  {
    assert kw in jieba.Keywords(doc.title) <==> kw in multiset(jieba.Keywords(doc.title));
    assert kw in jieba.Keywords(doc.content) <==> kw in multiset(jieba.Keywords(doc.content));
  }

  /** One entry per document that holds the keyword, in the order of the documents. */
  function Postings(jieba: JiebaUtil, docs: seq<DocInfo>, kw: string): seq<InvertedElem> {
    if docs == [] then []
    else
      var n := |docs| - 1;
      Postings(jieba, docs[..n], kw)
      + if Holds(jieba, docs[n], kw) then [InvertedElem(docs[n].docId, kw, Weight(jieba, docs[n], kw))] else []
  }

  predicate Numbered(docs: seq<DocInfo>) { forall i :: 0 <= i < |docs| ==> docs[i].docId == i }

  /** The entry stands for a document that holds the keyword, with its weight. */
  predicate EntryOf(jieba: JiebaUtil, docs: seq<DocInfo>, kw: string, e: InvertedElem) {
    && e.docId < |docs| && Holds(jieba, docs[e.docId], kw)
    && e.keyword == kw && e.weight == Weight(jieba, docs[e.docId], kw)
  }

  predicate Increasing(p: seq<InvertedElem>) { forall k, m :: 0 <= k < m < |p| ==> p[k].docId < p[m].docId }

  predicate HasEntry(p: seq<InvertedElem>, i: nat) { exists k :: 0 <= k < |p| && p[k].docId == i }

  /** The posting list, said of its entries: ids strictly increase, and a document has one iff it holds the keyword. */
  lemma PostingsExact(jieba: JiebaUtil, docs: seq<DocInfo>, kw: string)
    requires Numbered(docs)
    ensures var p := Postings(jieba, docs, kw);
            && Increasing(p)
            && (forall k :: 0 <= k < |p| ==> EntryOf(jieba, docs, kw, p[k]))
            && (forall i :: 0 <= i < |docs| && Holds(jieba, docs[i], kw) ==> HasEntry(p, i))
  {
    PostingsSound(jieba, docs, kw);
    forall i | 0 <= i < |docs| && Holds(jieba, docs[i], kw)
      ensures HasEntry(Postings(jieba, docs, kw), i)
    {
      PostingsComplete(jieba, docs, kw, i);
    }
  }

  lemma {:induction false} PostingsSound(jieba: JiebaUtil, docs: seq<DocInfo>, kw: string)
    requires Numbered(docs)
    ensures var p := Postings(jieba, docs, kw);
            Increasing(p) && forall k :: 0 <= k < |p| ==> EntryOf(jieba, docs, kw, p[k])
  {
    hide Holds, Weight, EntryOf;
    if docs != [] {
      var n := |docs| - 1;
      PostingsSound(jieba, docs[..n], kw);
      var p, q := Postings(jieba, docs[..n], kw), Postings(jieba, docs, kw);
      var last := InvertedElem(n, kw, Weight(jieba, docs[n], kw));
      LastEntry(jieba, docs, kw);
      forall k | 0 <= k < |p|
        ensures EntryOf(jieba, docs, kw, p[k]) && p[k].docId < n
      {
        EntryKept(jieba, docs, n, kw, p[k]);
      }
    }
  }

  lemma LastEntry(jieba: JiebaUtil, docs: seq<DocInfo>, kw: string)
    requires Numbered(docs) && docs != []
    ensures var n := |docs| - 1;
            var last := InvertedElem(n, kw, Weight(jieba, docs[n], kw));
            && (Holds(jieba, docs[n], kw) ==> EntryOf(jieba, docs, kw, last))
            && Postings(jieba, docs, kw)
               == Postings(jieba, docs[..n], kw) + if Holds(jieba, docs[n], kw) then [last] else []
  {
    hide Holds, Weight;
  }

  lemma EntryKept(jieba: JiebaUtil, docs: seq<DocInfo>, n: nat, kw: string, e: InvertedElem)
    requires n <= |docs| && EntryOf(jieba, docs[..n], kw, e)
    ensures EntryOf(jieba, docs, kw, e) && e.docId < n
  {}

  lemma {:induction false} PostingsComplete(jieba: JiebaUtil, docs: seq<DocInfo>, kw: string, i: nat)
    requires Numbered(docs) && i < |docs| && Holds(jieba, docs[i], kw)
    ensures HasEntry(Postings(jieba, docs, kw), i)
  {
    hide Holds, Weight;
    var n := |docs| - 1;
    var p, q := Postings(jieba, docs[..n], kw), Postings(jieba, docs, kw);
    if i < n {
      PostingsComplete(jieba, docs[..n], kw, i);
      var k :| 0 <= k < |p| && p[k].docId == i;
      assert q[k].docId == i;
    } else {
      assert q[|p|].docId == i;
    }
  }

  // ----- the program

  /** The documents of a file of records. */
  function Docs(file: string, from: nat): seq<DocInfo>
    requires Defined(file)
  {
    DocsOf(Records.ParseAll(file), from)
  }

  function DocsOf(records: seq<Option<Records.Doc>>, from: nat): (docs: seq<DocInfo>)
    requires forall r :: r in records ==> r.Some?
    ensures |docs| == |records|
    ensures forall k :: 0 <= k < |docs| ==> docs[k] == Info(records[k].value, from + k)
    decreases |records|
  {
    if records == [] then []
    else
      assert records[|records| - 1] in records;
      DocsOf(records[..|records| - 1], from) + [Info(records[|records| - 1].value, from + |records| - 1)]
  }

  /** The records before the k-th. */
  ghost function Front(records: seq<Option<Records.Doc>>, k: nat): (front: seq<Option<Records.Doc>>)
    requires k <= |records| && forall r :: r in records ==> r.Some?
    ensures |front| == k && forall r :: r in front ==> r.Some?
  {
    records[..k]
  }

  lemma NextDoc(records: seq<Option<Records.Doc>>, k: nat, from: nat)
    requires k < |records| && forall r :: r in records ==> r.Some?
    ensures records[k].Some?
    ensures DocsOf(Front(records, k + 1), from)
         == DocsOf(Front(records, k), from) + [Info(records[k].value, from + k)]
  {
    assert records[k] in records;
    assert records[..k + 1][..k] == records[..k];
  }

  function Info(doc: Records.Doc, docId: nat): DocInfo { DocInfo(doc.title, doc.content, doc.url, docId) }

  /** Every line has the three fields that the index takes. */
  predicate Defined(file: string) { forall r :: r in Records.ParseAll(file) ==> r.Some? }

  /** What the parser saved for clean documents is what the index is built from. */
  lemma SavedDocs(docs: seq<Records.Doc>, from: nat)
    requires Records.AllClean(docs)
    ensures var file := Records.Saved(docs);
            && Defined(file) && |Docs(file, from)| == |docs|
            && (forall k :: 0 <= k < |docs| ==> Docs(file, from)[k] == Info(docs[k], from + k))
            && (forall k :: 0 <= k < |docs| ==>
                  var d := Docs(file, from)[k];
                  && d.title == docs[k].title && d.content == docs[k].content && d.url == docs[k].url
                  && d.docId == from + k)
  {
    hide Records.ParseAll, Records.Saved;
    Records.RecordsRoundTrip(docs);
    var r := Records.Found(docs);
    assert forall x :: x in r ==> x.Some?;
  }

  type Lists = map<string, seq<InvertedElem>>

  function Slot(lists: Lists, kw: string): seq<InvertedElem> { if kw in lists then lists[kw] else [] }

  predicate NoEmptyList(lists: Lists) { forall kw :: kw in lists ==> lists[kw] != [] }

  /** The counts of every keyword of the two texts, and of no other. */
  ghost predicate Counted(m: map<string, KeywordCnt>, titles: seq<string>, contents: seq<string>) {
    forall kw: string ::
      && (kw in m <==> kw in titles || kw in contents)
      && Count(m, kw) == KeywordCnt(multiset(titles)[kw], multiset(contents)[kw])
  }

  function Count(m: map<string, KeywordCnt>, kw: string): KeywordCnt {
    if kw in m then m[kw] else KeywordCnt(0, 0)
  }

  function Item(docId: nat, kw: string, cnt: KeywordCnt): InvertedElem {
    InvertedElem(docId, kw, cnt.titleCnt * TITLE_WEIGHT + cnt.contentCnt * CONTENT_WEIGHT)
  }

  class Index {
    const jieba: JiebaUtil
    var forwardIndex: seq<DocInfo>
    var invertedIndex: Lists

    /** The inverted index maps exactly the keywords that occur in the documents, to their postings. */
    ghost predicate Inverts(docs: seq<DocInfo>)
      reads this
    {
      && NoEmptyList(invertedIndex)
      && forall kw: string :: Slot(invertedIndex, kw) == Postings(jieba, docs, kw)
    }

    ghost predicate Valid()
      reads this
    {
      Numbered(forwardIndex) && Inverts(forwardIndex)
    }

    constructor (jieba: JiebaUtil)
      ensures Valid() && forwardIndex == [] && this.jieba == jieba
    {
      this.jieba, forwardIndex, invertedIndex := jieba, [], map[];
    }

    method GetInvertedList(keyword: string) returns (list: Option<seq<InvertedElem>>)
      requires Valid()
      ensures var p := Postings(jieba, forwardIndex, keyword); list == if p == [] then None else Some(p)
    {
      return if keyword in invertedIndex then Some(invertedIndex[keyword]) else None;
    }

    method GetForwardIndex(docId: nat) returns (doc: Option<DocInfo>)
      requires Valid()
      ensures doc.Some? <==> docId < |forwardIndex|
      ensures doc.Some? ==> doc.value == forwardIndex[docId] && doc.value.docId == docId
    {
      return if docId >= |forwardIndex| then None else Some(forwardIndex[docId]);
    }

    /** Adds the documents of the input file, if it can be opened, and keeps the index in step. */
    method BuildIndex(input: Option<string>) returns (ok: bool)
      requires Valid() && (input.Some? ==> Defined(input.value))
      modifies this
      ensures Valid() && ok == input.Some?
      ensures forwardIndex == old(forwardIndex) + if ok then Docs(input.value, |old(forwardIndex)|) else []
    {
      hide Valid, Info, DocsOf;
      if input == None {
        return false;
      }
      var lines := Records.Lines(input.value);
      ghost var records := Records.ParseAll(input.value);
      ghost var from := |forwardIndex|;
      assert records[..0] == [];
      for i := 0 to |lines|
        invariant Valid() && forwardIndex == old(forwardIndex) + DocsOf(Front(records, i), from)
      {
        Records.ParseLinesAt(lines, i);
        NextDoc(records, i, from);
        Assoc(old(forwardIndex), DocsOf(Front(records, i), from), [Info(records[i].value, from + i)]);
        IndexLine(lines[i]);
      }
      assert records[..|lines|] == records;
      return true;
    }

    /** One document into both indexes. */
    method IndexLine(line: string)
      requires Valid() && Records.ParseRecord(line).Some?
      modifies this
      ensures Valid()
      ensures forwardIndex == old(forwardIndex) + [Info(Records.ParseRecord(line).value, |old(forwardIndex)|)]
    {
      BuildForwardIndex(line);
      assert forwardIndex[..|forwardIndex| - 1] == old(forwardIndex);
      BuildInvertedIndex(forwardIndex[|forwardIndex| - 1]);
    }

    /** The next document gets the next id. */
    method BuildForwardIndex(file: string)
      requires Records.ParseRecord(file).Some?
      modifies this`forwardIndex
      ensures forwardIndex == old(forwardIndex) + [Info(Records.ParseRecord(file).value, |old(forwardIndex)|)]
    {
      var fields := Records.Tokens(file);
      forwardIndex := forwardIndex + [DocInfo(fields[0], fields[1], fields[2], |forwardIndex|)];
    }

    /** The inverted index catches up with the document that was put last into the forward index. */
    method BuildInvertedIndex(doc: DocInfo)
      requires forwardIndex != [] && doc == forwardIndex[|forwardIndex| - 1]
      requires Inverts(forwardIndex[..|forwardIndex| - 1])
      modifies this`invertedIndex
      ensures Inverts(forwardIndex)
    {
      var keywordsMap := CountKeywords(doc);
      ghost var before := invertedIndex;
      AddItems(doc, keywordsMap);
      forall kw: string
        ensures Slot(invertedIndex, kw) == Postings(jieba, forwardIndex, kw)
      {
        ItemIsEntry(jieba, doc, kw, keywordsMap);
        assert Slot(before, kw) == Postings(jieba, forwardIndex[..|forwardIndex| - 1], kw);
      }
    }

    method CountKeywords(doc: DocInfo) returns (keywordsMap: map<string, KeywordCnt>)
      ensures Counted(keywordsMap, jieba.Keywords(doc.title), jieba.Keywords(doc.content))
    {
      keywordsMap := map[];
      keywordsMap := CountTitle(doc.title, keywordsMap);
      keywordsMap := CountContent(doc.content, keywordsMap, jieba.Keywords(doc.title));
    }

    method CountTitle(title: string, before: map<string, KeywordCnt>) returns (keywordsMap: map<string, KeywordCnt>)
      requires Counted(before, [], [])
      ensures Counted(keywordsMap, jieba.Keywords(title), [])
    {
      hide Counted, Count, JiebaUtil.NoStop;
      keywordsMap := before;
      var words := jieba.CutStringNoStop(title);
      ghost var keywords := LowerAll(words);
      assert jieba.Keywords(title) == keywords;
      assert keywords[..0] == [];
      for i := 0 to |words|
        invariant Counted(keywordsMap, keywords[..i], [])
      {
        var keyword := Lower(words[i]);
        OneMoreTitle(keywordsMap, keywords, i, []);
        var cnt := Count(keywordsMap, keyword);
        keywordsMap := keywordsMap[keyword := cnt.(titleCnt := cnt.titleCnt + 1)];
      }
      assert keywords[..|words|] == keywords;
    }

    method CountContent(content: string, before: map<string, KeywordCnt>, ghost titles: seq<string>)
      returns (keywordsMap: map<string, KeywordCnt>)
      requires Counted(before, titles, [])
      ensures Counted(keywordsMap, titles, jieba.Keywords(content))
    {
      hide Counted, Count, JiebaUtil.NoStop;
      keywordsMap := before;
      var words := jieba.CutStringNoStop(content);
      ghost var keywords := LowerAll(words);
      assert jieba.Keywords(content) == keywords;
      assert keywords[..0] == [];
      for i := 0 to |words|
        invariant Counted(keywordsMap, titles, keywords[..i])
      {
        var keyword := Lower(words[i]);
        OneMoreContent(keywordsMap, titles, keywords, i);
        var cnt := Count(keywordsMap, keyword);
        keywordsMap := keywordsMap[keyword := cnt.(contentCnt := cnt.contentCnt + 1)];
      }
      assert keywords[..|words|] == keywords;
    }

    /** One item per counted keyword, in whatever order the map gives them. */
    method AddItems(doc: DocInfo, keywordsMap: map<string, KeywordCnt>)
      requires NoEmptyList(invertedIndex)
      modifies this`invertedIndex
      ensures NoEmptyList(invertedIndex)
      ensures forall kw: string ::
                Slot(invertedIndex, kw)
                == Slot(old(invertedIndex), kw)
                   + if kw in keywordsMap then [Item(doc.docId, kw, keywordsMap[kw])] else []
    {
      ghost var before := invertedIndex;
      var todo := keywordsMap.Keys;
      while todo != {}
        invariant todo <= keywordsMap.Keys && NoEmptyList(invertedIndex)
        invariant forall kw: string ::
                    Slot(invertedIndex, kw)
                    == Slot(before, kw)
                       + if kw in keywordsMap && kw !in todo then [Item(doc.docId, kw, keywordsMap[kw])] else []
        decreases |todo|
      {
        var kw :| kw in todo;
        var item := Item(doc.docId, kw, keywordsMap[kw]);
        var list := Slot(invertedIndex, kw);
        invertedIndex := invertedIndex[kw := list + [item]];
        todo := todo - {kw};
      }
    }
  }

  lemma OneMore(words: seq<string>, i: nat)
    requires i < |words|
    ensures multiset(words[..i + 1]) == multiset(words[..i])[words[i] := multiset(words[..i])[words[i]] + 1]
    ensures forall w :: w in words[..i + 1] <==> w in words[..i] || w == words[i]
  {
    assert words[..i + 1] == words[..i] + [words[i]];
  }

  lemma OneMoreTitle(m: map<string, KeywordCnt>, words: seq<string>, i: nat, contents: seq<string>)
    requires i < |words| && Counted(m, words[..i], contents)
    ensures var cnt := Count(m, words[i]);
            Counted(m[words[i] := cnt.(titleCnt := cnt.titleCnt + 1)], words[..i + 1], contents)
  {
    OneMore(words, i);
  }

  lemma OneMoreContent(m: map<string, KeywordCnt>, titles: seq<string>, words: seq<string>, i: nat)
    requires i < |words| && Counted(m, titles, words[..i])
    ensures var cnt := Count(m, words[i]);
            Counted(m[words[i] := cnt.(contentCnt := cnt.contentCnt + 1)], titles, words[..i + 1])
  {
    OneMore(words, i);
  }

  /** The counted keywords of a document give the entries of its postings. */
  lemma ItemIsEntry(jieba: JiebaUtil, doc: DocInfo, kw: string, m: map<string, KeywordCnt>)
    requires Counted(m, jieba.Keywords(doc.title), jieba.Keywords(doc.content))
    ensures kw in m <==> Holds(jieba, doc, kw)
    ensures kw in m ==> Item(doc.docId, kw, m[kw]) == InvertedElem(doc.docId, kw, Weight(jieba, doc, kw))
  {
    assert Count(m, kw).titleCnt == Occurrences(jieba, doc.title, kw);
    assert Count(m, kw).contentCnt == Occurrences(jieba, doc.content, kw);
  }
}
