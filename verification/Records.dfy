/**
 The document records that parser.cc saves and index.hpp reads back: title, content and url between
 separator characters, one document a line.
 */
module Records {
  import opened Text
  import opened Wrappers

  datatype Doc = Doc(title: string, content: string, url: string)

  const SEP: char := '\U{000003}'

  // ----- what the parser writes

  /** There is a '>' at j, and no '<' between it and k. */
  ghost predicate OpenSince(s: string, j: nat, k: nat) {
    j < k <= |s| && s[j] == '>' && '<' !in s[j + 1..k]
  }

  /** Position k lies in the text. */
  ghost predicate InText(s: string, k: nat) { exists j: nat :: OpenSince(s, j, k) }

  /** The text between the tags of the first n characters, line ends as blanks. */
  ghost function TextBefore(s: string, n: nat): (t: string)
    requires n <= |s|
    ensures '<' !in t && '\n' !in t
  {
    if n == 0 then ""
    else
      TextBefore(s, n - 1)
      + if InText(s, n - 1) && s[n - 1] != '<' then [if s[n - 1] == '\n' then ' ' else s[n - 1]] else ""
  }

  datatype Status = Label | Content

  method ParseContent(fileContent: string) returns (content: string)
    ensures content == TextBefore(fileContent, |fileContent|)
  {
    content := "";
    var s := Label;
    for i := 0 to |fileContent|
      invariant s == Content <==> InText(fileContent, i)
      invariant content == TextBefore(fileContent, i)
    {
      var c := fileContent[i];
      TextStep(fileContent, i);
      match s {
        case Label =>
          if c == '>' {
            s := Content;
          }
        case Content =>
          if c == '<' {
            s := Label;
          } else {
            content := content + [if c == '\n' then ' ' else c];
          }
      }
    }
  }

  lemma TextStep(s: string, i: nat)
    requires i < |s|
    ensures InText(s, i + 1) <==> s[i] == '>' || (s[i] != '<' && InText(s, i))
  {
    forall j | 0 <= j < i
      ensures OpenSince(s, j, i + 1) <==> s[i] != '<' && OpenSince(s, j, i)
    {
      assert s[j + 1..i + 1] == s[j + 1..i] + [s[i]];
    }
    if s[i] == '>' {
      assert OpenSince(s, i, i + 1);
    } else if InText(s, i + 1) {
      var j: nat :| OpenSince(s, j, i + 1);
      assert j < i && OpenSince(s, j, i);
    }
  }

  function Record(doc: Doc): string { doc.title + [SEP] + doc.content + [SEP] + doc.url }

  function Saved(docs: seq<Doc>): string {
    if docs == [] then "" else (Record(docs[0]) + "\n") + Saved(docs[1..])
  }

  method SaveDocInfo(docs: seq<Doc>) returns (file: string)
    ensures file == Saved(docs)
  {
    file := "";
    assert docs[0..] == docs;
    for i := 0 to |docs|
      invariant file + Saved(docs[i..]) == Saved(docs)
    {
      var outStr := docs[i].title;
      outStr := outStr + [SEP];
      outStr := outStr + docs[i].content;
      outStr := outStr + [SEP];
      outStr := outStr + docs[i].url;
      outStr := outStr + "\n";
      assert docs[i..][1..] == docs[i + 1..];
      Assoc(file, outStr, Saved(docs[i + 1..]));
      file := file + outStr;
    }
  }

  // ----- what the index reads

  /** The lines that getline returns. */
  function Lines(file: string): seq<string>
    decreases |file|
  {
    var i := IndexOf(file, '\n');
    if file == "" then [] else if i == |file| then [file] else [file[..i]] + Lines(file[i + 1..])
  }

  function SkipSeparators(s: string): (t: string)
    ensures |t| <= |s| && (t == "" || t[0] != SEP)
    ensures s != "" && s[0] == SEP ==> |t| < |s|
  {
    if s != "" && s[0] == SEP then SkipSeparators(s[1..]) else s
  }

  /** The tokens between runs of separators; the first and the last may be empty. */
  function Tokens(s: string): (t: seq<string>)
    ensures t != []
    decreases |s|
  {
    var i := IndexOf(s, SEP);
    if i == |s| then [s] else [s[..i]] + Tokens(SkipSeparators(s[i..]))
  }

  /** The index takes the first three tokens; with fewer it would read past them, and nothing is defined. */
  function ParseRecord(line: string): Option<Doc> {
    var t := Tokens(line);
    if |t| < 3 then None else Some(Doc(t[0], t[1], t[2]))
  }

  function ParseLines(lines: seq<string>): (docs: seq<Option<Doc>>)
    ensures |docs| == |lines|
  {
    if lines == [] then [] else [ParseRecord(lines[0])] + ParseLines(lines[1..])
  }

  function ParseAll(file: string): seq<Option<Doc>> { ParseLines(Lines(file)) }

  // ----- the round trip

  predicate PlainField(s: string) { SEP !in s && '\n' !in s }

  predicate Clean(doc: Doc) {
    PlainField(doc.title) && PlainField(doc.content) && PlainField(doc.url) && doc.content != ""
  }

  /** Tokens hold no separator and come from the text. */
  lemma {:induction false} TokenFrom(s: string, k: nat)
    requires k < |Tokens(s)|
    ensures SEP !in Tokens(s)[k] && forall c :: c in Tokens(s)[k] ==> c in s
    decreases |s|
  {
    var i := IndexOf(s, SEP);
    if i < |s| && k > 0 {
      SkippedPart(s[i..]);
      TokenFrom(SkipSeparators(s[i..]), k - 1);
    } else {
      assert s[..|s|] == s;
    }
  }

  /** Tokens are only empty at the ends of the text. */
  lemma {:induction false} TokenNonempty(s: string, k: nat)
    requires k < |Tokens(s)|
    ensures 0 < k < |Tokens(s)| - 1 ==> Tokens(s)[k] != ""
    ensures k == 0 && s != "" && s[0] != SEP ==> Tokens(s)[k] != ""
    decreases |s|
  {
    var i := IndexOf(s, SEP);
    if i < |s| && k > 0 {
      TokenNonempty(SkipSeparators(s[i..]), k - 1);
    }
  }

  lemma {:induction false} SkippedPart(s: string)
    ensures forall c :: c in SkipSeparators(s) ==> c in s
  {
    if s != "" && s[0] == SEP {
      SkippedPart(s[1..]);
    }
  }

  lemma {:induction false} LinesPlain(file: string)
    ensures forall k :: 0 <= k < |Lines(file)| ==> '\n' !in Lines(file)[k]
    decreases |file|
  {
    var i := IndexOf(file, '\n');
    if i < |file| {
      LinesPlain(file[i + 1..]);
    } else {
      assert file[..i] == file;
    }
  }

  lemma TokensFirst(a: string, s: string)
    requires SEP !in a && (s == "" || s[0] != SEP)
    ensures Tokens(a + ([SEP] + s)) == [a] + Tokens(s)
    ensures Tokens(a) == [a]
  {
    var x := a + ([SEP] + s);
    assert x[..|a|] == a && x[|a|..] == [SEP] + s && a[..|a|] == a;
    IndexOfAt(x, SEP, |a|);
    IndexOfAt(a, SEP, |a|);
    assert ([SEP] + s)[1..] == s;
    assert SkipSeparators([SEP] + s) == SkipSeparators(s) == s;
  }

  lemma RecordShape(doc: Doc)
    ensures Record(doc) == doc.title + ([SEP] + (doc.content + ([SEP] + doc.url)))
  {
    Assoc(doc.title + [SEP], doc.content, [SEP] + doc.url);
    Assoc((doc.title + [SEP]) + doc.content, [SEP], doc.url);
    Assoc(doc.title, [SEP], doc.content + ([SEP] + doc.url));
  }

  lemma RecordParsed(doc: Doc)
    requires Clean(doc)
    ensures ParseRecord(Record(doc)) == Some(doc) && '\n' !in Record(doc)
  {
    hide Record, Tokens;
    RecordShape(doc);
    var middle := doc.content + ([SEP] + doc.url);
    assert doc.url != "" ==> doc.url[0] in doc.url;
    assert middle[0] == doc.content[0] && doc.content[0] in doc.content;
    TokensFirst(doc.url, "");
    TokensFirst(doc.content, doc.url);
    TokensFirst(doc.title, middle);
    assert [doc.title] + ([doc.content] + [doc.url]) == [doc.title, doc.content, doc.url];
  }

  function Found(docs: seq<Doc>): (r: seq<Option<Doc>>)
    ensures |r| == |docs| && forall k :: 0 <= k < |docs| ==> r[k] == Some(docs[k])
  {
    if docs == [] then [] else [Some(docs[0])] + Found(docs[1..])
  }

  predicate AllClean(docs: seq<Doc>) { forall k :: 0 <= k < |docs| ==> Clean(docs[k]) }

  lemma {:induction false} CleanSurvive(docs: seq<Doc>)
    requires AllClean(docs)
    ensures ParseAll(Saved(docs)) == Found(docs)
  {
    hide Record, ParseRecord, Clean;
    if docs != [] {
      var line, rest := Record(docs[0]), Saved(docs[1..]);
      var file := (line + "\n") + rest;
      RecordParsed(docs[0]);
      CleanSurvive(docs[1..]);
      assert file[..|line|] == line && file[|line| + 1..] == rest;
      IndexOfAt(file, '\n', |line|);
      assert Lines(file) == [line] + Lines(rest);
    }
  }

  lemma {:induction false} ParseLinesAt(lines: seq<string>, k: nat)
    requires k < |lines|
    ensures ParseLines(lines)[k] == ParseRecord(lines[k])
  {
    if k > 0 {
      ParseLinesAt(lines[1..], k - 1);
    }
  }

  /** The records read back as saved exactly when every document is clean. */
  lemma RecordsRoundTrip(docs: seq<Doc>)
    ensures ParseAll(Saved(docs)) == Found(docs) <==> AllClean(docs)
  {
    var lines := Lines(Saved(docs));
    if AllClean(docs) {
      CleanSurvive(docs);
    } else if ParseLines(lines) == Found(docs) {
      LinesPlain(Saved(docs));
      forall k | 0 <= k < |docs|
        ensures Clean(docs[k])
      {
        ParseLinesAt(lines, k);
        ParsedClean(lines[k]);
      }
    }
  }

  /** Whatever is read from a line is clean. */
  lemma ParsedClean(line: string)
    requires '\n' !in line
    ensures ParseRecord(line).Some? ==> Clean(ParseRecord(line).value)
  {
    if |Tokens(line)| >= 3 {
      TokenPlain(line, 0);
      TokenPlain(line, 1);
      TokenPlain(line, 2);
    }
  }

  lemma TokenPlain(line: string, k: nat)
    requires '\n' !in line && k < |Tokens(line)|
    ensures PlainField(Tokens(line)[k]) && (0 < k < |Tokens(line)| - 1 ==> Tokens(line)[k] != "")
  {
    TokenFrom(line, k);
    TokenNonempty(line, k);
  }

  /** A document without content is not read back. */
  lemma EmptyContentLost()
    ensures var docs := [Doc("title", "", "url")]; ParseAll(Saved(docs)) != Found(docs)
  {
    var docs := [Doc("title", "", "url")];
    RecordsRoundTrip(docs);
    assert !Clean(docs[0]);
  }

  /** The line of a document: title, content and url, with the byte 3 between them. */
  lemma RecordSpelled(doc: Doc)
    ensures Saved([doc]) == doc.title + "\U{000003}" + doc.content + "\U{000003}" + doc.url + "\n"
  {
    assert [doc][1..] == [];
  }
}
