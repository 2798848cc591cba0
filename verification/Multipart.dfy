/**
 Multipart form data in httplib.h (section 5.1.1 of RFC 2046): the body that Post builds and the state
 machine that parses it, with a receiver that collects the items.
 */
module Multipart {
  import opened Text
  import opened Wrappers

  datatype FormData = FormData(name: string, filename: string, contentType: string, content: string)

  const DASH: string := "--"

  // ----- trimming and matching text

  /** s starts with p, ignoring case. */
  predicate StartsWith(s: string, p: string) {
    |p| <= |s| && forall k :: 0 <= k < |p| ==> ToLower(s[k]) == ToLower(p[k])
  }

  function SkipSpaces(s: string): string {
    if s != "" && IsSpace(s[0]) then SkipSpaces(s[1..]) else s
  }

  predicate LineEnd(c: char) { c == '\n' || c == '\r' }

  // ----- the header lines

  /** After filename=": the shortest text up to a quote with only blanks behind it. */
  function FilenameEnd(s: string, k: nat): (r: Option<nat>)
    requires k <= |s|
    ensures r.Some? ==> r.value < |s|
    decreases |s| - k
  {
    if k == |s| then None
    else if s[k] == '"' && SkipSpaces(s[k + 1..]) == "" then Some(k)
    else if LineEnd(s[k]) then None
    else FilenameEnd(s, k + 1)
  }

  const FILENAME_IS: string := "filename=\""

  /** After the closing quote of the name: an optional file name, then only blanks. */
  function MatchFilename(s: string): Option<string> {
    var t := if s != "" && s[0] == ';' then SkipSpaces(s[1..]) else "";
    var e := if StartsWith(t, FILENAME_IS) then FilenameEnd(t[|FILENAME_IS|..], 0) else None;
    if e.Some? then Some(t[|FILENAME_IS|..][..e.value])
    else if SkipSpaces(s) == "" then Some("")
    else None
  }

  /** After name=": the shortest name whose closing quote is followed by a match. */
  function MatchName(s: string, k: nat): Option<(string, string)>
    requires k <= |s|
    decreases |s| - k
  {
    if k == |s| then None
    else if s[k] == '"' && MatchFilename(s[k + 1..]).Some? then Some((s[..k], MatchFilename(s[k + 1..]).value))
    else if LineEnd(s[k]) then None
    else MatchName(s, k + 1)
  }

  const DISPOSITION: string := "Content-Disposition:"
  const FORM_DATA: string := "form-data;"
  const NAME_IS: string := "name=\""

  function MatchDisposition(header: string): Option<(string, string)> {
    if !StartsWith(header, DISPOSITION) then None
    else
      var a := SkipSpaces(header[|DISPOSITION|..]);
      if !StartsWith(a, FORM_DATA) then None
      else
        var b := SkipSpaces(a[|FORM_DATA|..]);
        if !StartsWith(b, NAME_IS) then None else MatchName(b[|NAME_IS|..], 0)
  }

  const CONTENT_TYPE: string := "content-type:"

  /** What one header line does to the description of the current item. */
  function ReadHeader(header: string, file: FormData): FormData {
    if StartsWith(header, CONTENT_TYPE) then file.(contentType := TrimCopy(header[|CONTENT_TYPE|..]))
    else
      match MatchDisposition(header)
      case Some((name, filename)) => file.(name := name, filename := filename)
      case None => file
  }

  // ----- the state machine

  const EMPTY_FILE: FormData := FormData("", "", "", "")

  /** The parser's fields, and the items that its callbacks have delivered. */
  datatype Parsing = Parsing(buf: string, state: nat, isValid: bool, file: FormData, items: seq<FormData>)

  datatype Next = Go(p: Parsing) | Stop(p: Parsing, ret: bool)

  /** The content callback appends to the item announced last. */
  function Deliver(items: seq<FormData>, d: string): seq<FormData> {
    if items == [] then items
    else var n := |items| - 1; items[n := items[n].(content := items[n].content + d)]
  }

  /** Without a line end before dashes in the buffer, its trailing CR, LF and dashes are kept back. */
  function HeldBack(buf: string, pos: nat): (r: nat)
    requires pos <= |buf|
    ensures r <= pos
  {
    if pos > 0 && buf[pos - 1] in {'\r', '\n', '-'} then HeldBack(buf, pos - 1) else pos
  }

  function StepBody(boundary: string, p: Parsing): Next {
    if |CRLF + DASH| > |p.buf| then Stop(p, true)
    else
      var pos := match Find(p.buf, CRLF + DASH) case Some(k) => k case None => HeldBack(p.buf, |p.buf|);
      var q := p.(items := Deliver(p.items, p.buf[..pos]), buf := p.buf[pos..]);
      var pattern := CRLF + DASH + boundary;
      if |pattern| > |q.buf| then Stop(q, true)
      else
        match Find(q.buf, pattern)
        case Some(k) =>
          Go(q.(items := Deliver(q.items, q.buf[..k]), buf := q.buf[k + |pattern|..], state := 4))
        case None =>
          Go(q.(items := Deliver(q.items, q.buf[..|pattern|]), buf := q.buf[|pattern|..]))
  }

  function StepBoundary(p: Parsing): Next {
    if |CRLF| > |p.buf| then Stop(p, true)
    else if p.buf[..|CRLF|] == CRLF then Go(p.(buf := p.buf[|CRLF|..], state := 1))
    else
      var pattern := DASH + CRLF;
      if |pattern| > |p.buf| then Stop(p, true)
      else if p.buf[..|pattern|] == pattern then Go(p.(buf := p.buf[|pattern|..], isValid := true, state := 5))
      else Stop(p, true)
  }

  function StepHeaders(p: Parsing): Next {
    match Find(p.buf, CRLF)
    case None => Stop(p, true)
    case Some(pos) =>
      if pos == 0 then Go(p.(items := p.items + [p.file], buf := p.buf[|CRLF|..], state := 3))
      else Go(p.(file := ReadHeader(p.buf[..pos], p.file), buf := p.buf[pos + |CRLF|..]))
  }

  function StepStart(boundary: string, p: Parsing): Next {
    var pattern := DASH + boundary + CRLF;
    if |pattern| > |p.buf| then Stop(p, true)
    else if Find(p.buf, pattern) != Some(0) then Stop(p, false)
    else Go(p.(buf := p.buf[|pattern|..], state := 1))
  }

  function Step(boundary: string, p: Parsing): (n: Next)
    ensures n.Go? ==> |n.p.buf| < |p.buf| || (|n.p.buf| == |p.buf| && p.state == 1 && n.p.state == 2)
  {
    match p.state
    case 0 => StepStart(boundary, p)
    case 1 => Go(p.(file := EMPTY_FILE, state := 2))
    case 2 => StepHeaders(p)
    case 3 => StepBody(boundary, p)
    case 4 => StepBoundary(p)
    case _ => Stop(p.(isValid := false), false)
  }

  /** The whole loop of one parse call. */
  function Run(boundary: string, p: Parsing): (Parsing, bool)
    decreases |p.buf|, p.state == 1
  {
    if p.buf == "" then (p, true)
    else
      match Step(boundary, p)
      case Stop(q, ret) => (q, ret)
      case Go(q) => Run(boundary, q)
  }

  // ----- the program

  class MultipartFormDataParser {
    const boundary: string
    var buf: string
    var state: nat
    var isValid: bool
    var file: FormData
    /** The receiver behind the two callbacks. */
    var items: seq<FormData>

    function Value(): Parsing
      reads this
    {
      Parsing(buf, state, isValid, file, items)
    }

    constructor (boundary: string)
      ensures this.boundary == boundary && Value() == Parsing("", 0, false, EMPTY_FILE, [])
    {
      this.boundary := boundary;
      buf, state, isValid, file, items := "", 0, false, EMPTY_FILE, [];
    }

    method ContentCallback(d: string)
      modifies this`items
      ensures items == Deliver(old(items), d)
    {
      if items != [] {
        var n := |items| - 1;
        items := items[n := items[n].(content := items[n].content + d)];
      }
    }

    /** One call of parse over everything buffered so far and the new data. */
    method Parse(data: string) returns (ret: bool)
      modifies this
      ensures (Value(), ret) == Run(boundary, old(Value()).(buf := old(buf) + data))
    {
      buf := buf + data;
      ghost var outcome := Run(boundary, Value());
      while buf != ""
        invariant Run(boundary, Value()) == outcome
        decreases |buf|, state == 1
      {
        ghost var step := Step(boundary, Value());
        var stop;
        match state {
          case 0 => stop, ret := ParseStart();
          case 1 =>
            file := EMPTY_FILE;
            state := 2;
            stop := false;
          case 2 => stop, ret := ParseHeaders();
          case 3 => stop, ret := ParseBody();
          case 4 => stop, ret := ParseBoundary();
          case _ =>
            isValid := false;
            stop, ret := true, false;
        }
        assert step == if stop then Stop(Value(), ret) else Go(Value());
        if stop {
          return ret;
        }
      }
      return true;
    }

    method ParseStart() returns (stop: bool, ret: bool)
      requires state == 0
      modifies this
      ensures StepStart(boundary, old(Value())) == if stop then Stop(Value(), ret) else Go(Value())
    {
      var pattern := DASH + boundary + CRLF;
      if |pattern| > |buf| {
        return true, true;
      }
      var pos := Find(buf, pattern);
      if pos != Some(0) {
        return true, false;
      }
      buf := buf[|pattern|..];
      state := 1;
      return false, false;
    }

    /** One header line, or the empty line that ends the headers. */
    method ParseHeaders() returns (stop: bool, ret: bool)
      requires state == 2
      modifies this
      ensures StepHeaders(old(Value())) == if stop then Stop(Value(), ret) else Go(Value())
    {
      var pos := Find(buf, CRLF);
      if pos == None {
        return true, true;
      }
      if pos.value == 0 {
        items := items + [file];
        buf := buf[|CRLF|..];
        state := 3;
      } else {
        var header := buf[..pos.value];
        if StartsWith(header, CONTENT_TYPE) {
          file := file.(contentType := TrimCopy(header[|CONTENT_TYPE|..]));
        } else {
          var m := MatchDisposition(header);
          if m.Some? {
            file := file.(name := m.value.0, filename := m.value.1);
          }
        }
        buf := buf[pos.value + |CRLF|..];
      }
      return false, false;
    }

    method ParseBody() returns (stop: bool, ret: bool)
      requires state == 3
      modifies this
      ensures StepBody(boundary, old(Value())) == if stop then Stop(Value(), ret) else Go(Value())
    {
      hide Find, HeldBack, Deliver;
      if |CRLF + DASH| > |buf| {
        return true, true;
      }
      var pos := SafeContent();
      ContentCallback(buf[..pos]);
      buf := buf[pos..];
      var pattern := CRLF + DASH + boundary;
      if |pattern| > |buf| {
        return true, true;
      }
      var k := Find(buf, pattern);
      if k.Some? {
        ContentCallback(buf[..k.value]);
        buf := buf[k.value + |pattern|..];
        state := 4;
      } else {
        ContentCallback(buf[..|pattern|]);
        buf := buf[|pattern|..];
      }
      return false, false;
    }

    /** How much of the buffer is content whatever comes next. */
    method SafeContent() returns (pos: nat)
      ensures pos == match Find(buf, CRLF + DASH) case Some(k) => k case None => HeldBack(buf, |buf|)
    {
      var found := Find(buf, CRLF + DASH);
      if found.Some? {
        return found.value;
      }
      pos := |buf|;
      while pos > 0 && buf[pos - 1] in {'\r', '\n', '-'}
        invariant pos <= |buf| && HeldBack(buf, |buf|) == HeldBack(buf, pos)
      {
        pos := pos - 1;
      }
    }

    method ParseBoundary() returns (stop: bool, ret: bool)
      requires state == 4
      modifies this
      ensures StepBoundary(old(Value())) == if stop then Stop(Value(), ret) else Go(Value())
    {
      if |CRLF| > |buf| {
        return true, true;
      }
      if buf[..|CRLF|] == CRLF {
        buf := buf[|CRLF|..];
        state := 1;
      } else {
        var pattern := DASH + CRLF;
        if |pattern| > |buf| {
          return true, true;
        }
        if buf[..|pattern|] == pattern {
          buf := buf[|pattern|..];
          isValid := true;
          state := 5;
        } else {
          return true, true;
        }
      }
      return false, false;
    }
  }

  // ----- the body that Post builds

  predicate BoundaryChar(c: char) {
    'a' <= c <= 'z' || 'A' <= c <= 'Z' || '0' <= c <= '9' || c == '-' || c == '_'
  }

  predicate GoodBoundary(boundary: string) { forall k :: 0 <= k < |boundary| ==> BoundaryChar(boundary[k]) }

  function DispositionLine(item: FormData): string {
    "Content-Disposition: form-data; name=\"" + item.name + "\""
    + (if item.filename != "" then "; filename=\"" + item.filename + "\"" else "")
  }

  function TypeLine(item: FormData): string { "Content-Type: " + item.contentType }

  /** The part of an item after its opening boundary line. */
  function PartText(item: FormData): string {
    (DispositionLine(item) + CRLF)
    + ((if item.contentType != "" then TypeLine(item) + CRLF else "") + (CRLF + item.content))
  }

  /** What follows the k-th opening boundary line. */
  function Tail(items: seq<FormData>, boundary: string): string
    requires items != []
  {
    PartText(items[0]) + (CRLF + DASH + boundary
      + (if |items| == 1 then DASH + CRLF else CRLF + Tail(items[1..], boundary)))
  }

  function Body(items: seq<FormData>, boundary: string): string {
    DASH + boundary + (if items == [] then DASH + CRLF else CRLF + Tail(items, boundary))
  }

  /** Post refuses a boundary with other characters, and otherwise sends this body. */
  method BuildBody(items: seq<FormData>, boundary: string) returns (body: Option<string>)
    ensures body == if GoodBoundary(boundary) then Some(Body(items, boundary)) else None
    ensures body.Some? ==> body.value == Flatten(Parts(items, boundary)) + ("--" + boundary + "--\r\n")
  {
    for i := 0 to |boundary|
      invariant forall k :: 0 <= k < i ==> BoundaryChar(boundary[k])
    {
      if !BoundaryChar(boundary[i]) {
        return None;
      }
    }
    var text := "";
    assert items[0..] == items;
    for i := 0 to |items|
      invariant text + Body(items[i..], boundary) == Body(items, boundary)
    {
      var part := BuildPart(items[i], boundary);
      BodyStep(items[i..], boundary, part);
      assert items[i..][1..] == items[i + 1..];
      Assoc(text, part, Body(items[i + 1..], boundary));
      text := text + part;
    }
    assert items[|items|..] == [];
    Assoc(text, "--" + boundary, "--\r\n");
    assert DASH + CRLF == "--\r\n";
    BodySpelled(items, boundary);
    text := text + (("--" + boundary) + "--\r\n");
    body := Some(text);
  }

  /** One item as it stands on the wire. */
  function Part(item: FormData, boundary: string): string {
    "--" + boundary + "\r\n"
    + ("Content-Disposition: form-data; name=\"" + item.name + "\"")
    + (if item.filename != "" then "; filename=\"" + item.filename + "\"" else "")
    + "\r\n"
    + (if item.contentType != "" then "Content-Type: " + item.contentType + "\r\n" else "")
    + "\r\n"
    + (item.content + "\r\n")
  }

  lemma PartRegrouped(item: FormData, boundary: string)
    ensures Part(item, boundary) == (DASH + boundary + CRLF + PartText(item)) + CRLF
  {
    var disposition := "Content-Disposition: form-data; name=\"" + item.name + "\"";
    var filename := if item.filename != "" then "; filename=\"" + item.filename + "\"" else "";
    var contentType := if item.contentType != "" then "Content-Type: " + item.contentType + "\r\n" else "";
    Regroup("--" + boundary + "\r\n", disposition, filename, "\r\n", contentType, item.content);
  }

  ghost function Parts(items: seq<FormData>, boundary: string): (parts: seq<string>)
    ensures |parts| == |items|
    ensures forall k :: 0 <= k < |items| ==> parts[k] == Part(items[k], boundary)
  {
    seq(|items|, k requires 0 <= k < |items| => Part(items[k], boundary))
  }

  /** The body is the parts one after the other, and a closing line. */
  lemma {:induction false} BodySpelled(items: seq<FormData>, boundary: string)
    ensures Body(items, boundary) == Flatten(Parts(items, boundary)) + ("--" + boundary + "--\r\n")
  {
    hide Part, PartText, Tail;
    var end := "--" + boundary + "--\r\n";
    if items == [] {
      Assoc("--", boundary, "--\r\n");
      assert Body(items, boundary) == DASH + boundary + (DASH + CRLF);
      assert DASH + CRLF == "--\r\n" && [] + end == end;
    } else {
      var part, parts := Part(items[0], boundary), Parts(items, boundary);
      PartRegrouped(items[0], boundary);
      BodyStep(items, boundary, part);
      BodySpelled(items[1..], boundary);
      assert parts[1..] == Parts(items[1..], boundary);
      Assoc(part, Flatten(parts[1..]), end);
    }
  }

  /** The opening line, the header lines, the empty line and the content of one item. */
  method BuildPart(item: FormData, boundary: string) returns (part: string)
    ensures part == (DASH + boundary + CRLF + PartText(item)) + CRLF
    ensures part == Part(item, boundary)
  {
    hide PartText;
    PartRegrouped(item, boundary);
    part := "--" + boundary + "\r\n";
    part := part + ("Content-Disposition: form-data; name=\"" + item.name + "\"");
    NothingAdded(part);
    if item.filename != "" {
      part := part + ("; filename=\"" + item.filename + "\"");
    }
    part := part + "\r\n";
    NothingAdded(part);
    if item.contentType != "" {
      part := part + ("Content-Type: " + item.contentType + "\r\n");
    }
    part := part + "\r\n";
    part := part + (item.content + "\r\n");
  }

  lemma NothingAdded(s: string)
    ensures s + "" == s
  {}

  lemma Regroup(a: string, d: string, f: string, c: string, t: string, x: string)
    ensures (((((a + d) + f) + c) + t) + c) + (x + c) == (a + (((d + f) + c) + (t + (c + x)))) + c
  {
    Assoc(a, d, f);
    Assoc(a, d + f, c);
    Assoc(a, (d + f) + c, t);
    Assoc(a, ((d + f) + c) + t, c);
    Assoc(((((a + d) + f) + c) + t) + c, x, c);
    Assoc(a, (((d + f) + c) + t) + c, x);
    Assoc(((d + f) + c) + t, c, x);
    Assoc((d + f) + c, t, c + x);
  }

  lemma BodyStep(items: seq<FormData>, boundary: string, part: string)
    requires items != [] && part == (DASH + boundary + CRLF + PartText(items[0])) + CRLF
    ensures Body(items, boundary) == part + Body(items[1..], boundary)
  {
    hide PartText;
    var open, text, rest := DASH + boundary, PartText(items[0]), Body(items[1..], boundary);
    var last := if |items| == 1 then DASH + CRLF else CRLF + Tail(items[1..], boundary);
    Assoc(CRLF, open, last);
    Assoc(CRLF, DASH, boundary);
    assert CRLF + DASH + boundary + last == CRLF + rest;
    assert Tail(items, boundary) == text + (CRLF + rest);
    Assoc(open, CRLF, text + (CRLF + rest));
    Assoc(open + CRLF, text, CRLF + rest);
    Assoc((open + CRLF) + text, CRLF, rest);
  }

  // ----- the round trip

  predicate OneLine(s: string) { forall k :: 0 <= k < |s| ==> !LineEnd(s[k]) }

  predicate NoCrlf(s: string) { forall k :: 0 <= k < |s| - 1 ==> s[k] != '\r' || s[k + 1] != '\n' }

  /** What every announced description is: names without line ends, a trimmed type without CRLF. */
  predicate PlainItem(item: FormData) {
    && OneLine(item.name) && OneLine(item.filename)
    && NoCrlf(item.contentType) && TrimCopy(item.contentType) == item.contentType
  }

  /** The rest of the line behind name=". */
  function NameTail(item: FormData): string { item.name + ("\"" + FilenamePart(item.filename)) }

  /** What stands behind a quote is a filename field with some text in it. */
  predicate Reopens(rest: string) {
    && rest != "" && rest[0] == ';'
    && var t := SkipSpaces(rest[1..]);
       StartsWith(t, FILENAME_IS) && |t| > |FILENAME_IS|
  }

  /** No quote inside the name can be taken for its end. */
  predicate Unambiguous(item: FormData) {
    forall k :: 0 <= k < |item.name| && item.name[k] == '"' ==> !Reopens(NameTail(item)[k + 1..])
  }

  predicate CleanHeaders(item: FormData) { PlainItem(item) && Unambiguous(item) }

  lemma {:induction false} SkipKeepsLast(s: string)
    requires s != "" && !IsSpace(s[|s| - 1])
    ensures var t := SkipSpaces(s); t != "" && t[|t| - 1] == s[|s| - 1] && (OneLine(s) ==> OneLine(t))
  {
    if IsSpace(s[0]) {
      SkipKeepsLast(s[1..]);
    }
  }

  /** The file name runs up to the last quote of the line. */
  lemma {:induction false} FilenameEndLast(s: string, k: nat)
    requires k < |s| && s[|s| - 1] == '"' && OneLine(s)
    ensures FilenameEnd(s, k) == Some(|s| - 1)
    decreases |s| - k
  {
    if k < |s| - 1 {
      SkipKeepsLast(s[k + 1..]);
      FilenameEndLast(s, k + 1);
    }
  }

  /** A text that ends in a quote goes on a name exactly if it is a filename field. */
  lemma QuoteInside(s: string)
    requires s != "" && s[|s| - 1] == '"' && OneLine(s)
    ensures MatchFilename(s).Some? <==> Reopens(s)
  {
    SkipKeepsLast(s);
    if s[0] == ';' {
      SkipKeepsLast(s[1..]);
      var t := SkipSpaces(s[1..]);
      if StartsWith(t, FILENAME_IS) && |t| > |FILENAME_IS| {
        FilenameEndLast(t[|FILENAME_IS|..], 0);
      }
    }
  }

  /** The lazy name group ends at the first quote behind which the rest matches. */
  lemma {:induction false} MatchNameFirst(s: string, k: nat, e: nat)
    requires k <= e < |s| && s[e] == '"' && MatchFilename(s[e + 1..]).Some? && OneLine(s[..e])
    ensures var r := MatchName(s, k);
            && r.Some? && |r.value.0| <= e
            && (|r.value.0| == e <==> forall m :: k <= m < e && s[m] == '"' ==> MatchFilename(s[m + 1..]) == None)
            && (|r.value.0| == e ==> r == Some((s[..e], MatchFilename(s[e + 1..]).value)))
    decreases e - k
  {
    hide MatchFilename;
    if k < e {
      assert s[..e][k] == s[k];
      if !(s[k] == '"' && MatchFilename(s[k + 1..]).Some?) {
        MatchNameFirst(s, k + 1, e);
      }
    }
  }

  function FilenamePart(f: string): string { if f != "" then "; filename=\"" + f + "\"" else "" }

  lemma SkipOne(s: string)
    requires s == "" || !IsSpace(s[0])
    ensures SkipSpaces(" " + s) == s
  {
    assert (" " + s)[1..] == s;
  }

  lemma DropPrefix(p: string, s: string)
    ensures StartsWith(p + s, p) && (p + s)[|p|..] == s
  {
    assert forall k :: 0 <= k < |p| ==> (p + s)[k] == p[k];
  }

  predicate NoCr(s: string) { forall k :: 0 <= k < |s| ==> s[k] != '\r' }

  lemma NoCrSum(a: string, b: string)
    requires NoCr(a) && NoCr(b)
    ensures NoCr(a + b)
  {}

  lemma LiteralsNoCr()
    ensures NoCr(";") && NoCr(" ") && NoCr("\"") && NoCr(FILENAME_IS) && NoCr(NAME_IS)
    ensures NoCr(FORM_DATA + " ") && NoCr(DISPOSITION + " ")
  {}

  lemma FilenameMatched(f: string)
    requires OneLine(f)
    ensures MatchFilename(FilenamePart(f)) == Some(f) && NoCr(FilenamePart(f))
  {
    hide FilenameEnd;
    if f != "" {
      var g := f + "\"";
      var t := FILENAME_IS + g;
      FilenameNoCr(f);
      FilenameShape(f);
      DropPrefix(";", " " + t);
      SkipOne(t);
      DropPrefix(FILENAME_IS, g);
      FilenameEndLast(g, 0);
      assert g[..|f|] == f;
    }
  }

  lemma NameNoCr(name: string, f: string)
    requires OneLine(name) && NoCr(f)
    ensures NoCr(name + ("\"" + f))
  {
    LiteralsNoCr();
    assert NoCr(name);
    NoCrSum("\"", f);
    NoCrSum(name, "\"" + f);
  }

  lemma FilenameShape(f: string)
    requires f != ""
    ensures FilenamePart(f) == ";" + (" " + (FILENAME_IS + (f + "\"")))
  {}

  lemma FilenameNoCr(f: string)
    requires OneLine(f) && f != ""
    ensures NoCr(FilenamePart(f))
  {
    hide FilenamePart;
    LiteralsNoCr();
    FilenameShape(f);
    assert NoCr(f);
    NoCrSum(f, "\"");
    NoCrSum(FILENAME_IS, f + "\"");
    NoCrSum(" ", FILENAME_IS + (f + "\""));
    NoCrSum(";", " " + (FILENAME_IS + (f + "\"")));
  }

  lemma TailPlain(item: FormData)
    requires PlainItem(item)
    ensures var tail := NameTail(item);
            && NoCr(tail) && OneLine(tail) && |item.name| < |tail|
            && tail[|item.name|] == '"' && tail[|tail| - 1] == '"'
            && tail[|item.name| + 1..] == FilenamePart(item.filename) && tail[..|item.name|] == item.name
  {
    hide MatchFilename, TrimCopy, NoCrlf, FilenamePart, NoCr;
    var f := FilenamePart(item.filename);
    FilenameMatched(item.filename);
    FilenameLast(item.filename);
    NameNoCr(item.name, f);
  }

  lemma FilenameLast(f: string)
    requires OneLine(f)
    ensures var t := FilenamePart(f); OneLine(t) && (t != "" ==> t[|t| - 1] == '"')
  {}

  /** The name group ends at the name's own closing quote exactly if no quote inside it can end it. */
  lemma NameMatched(item: FormData)
    requires PlainItem(item)
    ensures MatchName(NameTail(item), 0).Some?
    ensures MatchName(NameTail(item), 0) == Some((item.name, item.filename)) <==> Unambiguous(item)
  {
    hide MatchFilename, FilenamePart, TrimCopy, NoCr, NameTail, Reopens;
    var tail, n := NameTail(item), |item.name|;
    TailPlain(item);
    FilenameMatched(item.filename);
    MatchNameFirst(tail, 0, n);
    forall m | 0 <= m < n
      ensures tail[m] == item.name[m] && (MatchFilename(tail[m + 1..]).Some? <==> Reopens(tail[m + 1..]))
    {
      QuoteInside(tail[m + 1..]);
    }
  }

  lemma DispositionPlain(item: FormData)
    requires PlainItem(item)
    ensures var line := DispositionLine(item); line != "" && NoCr(line) && !StartsWith(line, CONTENT_TYPE)
  {
    hide NoCr, FilenamePart, TrimCopy, MatchName, DispositionLine, NameTail, PlainItem;
    var line := DispositionLine(item);
    var tail := NameTail(item);
    var b := NAME_IS + tail;
    TailPlain(item);
    LineShape(item);
    assert line[8] == 'D' && CONTENT_TYPE[8] == 't';
    LiteralsNoCr();
    NoCrSum(NAME_IS, tail);
    NoCrSum(FORM_DATA + " ", b);
    NoCrSum(DISPOSITION + " ", (FORM_DATA + " ") + b);
  }

  lemma DispositionMatched(item: FormData)
    ensures MatchDisposition(DispositionLine(item)) == MatchName(NameTail(item), 0)
  {
    hide MatchName, FilenamePart, DispositionLine, NameTail, SkipSpaces, StartsWith;
    var tail := NameTail(item);
    LineShape(item);
    var b := NAME_IS + tail;
    var a := FORM_DATA + (" " + b);
    assert a[0] == 'f' && b[0] == 'n';
    DropPrefix(DISPOSITION, " " + a);
    DropPrefix(FORM_DATA, " " + b);
    DropPrefix(NAME_IS, tail);
    SkipOne(a);
    SkipOne(b);
  }

  lemma LineShape(item: FormData)
    ensures var b := NAME_IS + NameTail(item);
            && DispositionLine(item) == DISPOSITION + (" " + (FORM_DATA + (" " + b)))
            && FORM_DATA + (" " + b) == (FORM_DATA + " ") + b
            && DispositionLine(item) == (DISPOSITION + " ") + ((FORM_DATA + " ") + b)
  {
    var f, x := FilenamePart(item.filename), NameTail(item);
    var head := "Content-Disposition: form-data; name=\"";
    assert head == ((DISPOSITION + " ") + (FORM_DATA + " ")) + NAME_IS;
    assert DispositionLine(item) == ((head + item.name) + "\"") + f;
    Assoc(head + item.name, "\"", f);
    Assoc(head, item.name, "\"" + f);
    Assoc((DISPOSITION + " ") + (FORM_DATA + " "), NAME_IS, x);
    Assoc(DISPOSITION + " ", FORM_DATA + " ", NAME_IS + x);
    Assoc(FORM_DATA, " ", NAME_IS + x);
    Assoc(DISPOSITION, " ", (FORM_DATA + " ") + (NAME_IS + x));
  }

  lemma TypeMatched(item: FormData)
    requires PlainItem(item)
    ensures var line := TypeLine(item);
            line != "" && NoCrlf(line) && StartsWith(line, CONTENT_TYPE)
            && TrimCopy(line[|CONTENT_TYPE|..]) == item.contentType
  {
    var line := TypeLine(item);
    assert line[|CONTENT_TYPE|..] == " " + item.contentType;
    assert (" " + item.contentType)[1..] == item.contentType;
    assert TrimLeft(" " + item.contentType) == TrimLeft(item.contentType);
  }

  lemma RunGo(boundary: string, p: Parsing)
    requires p.buf != "" && Step(boundary, p).Go?
    ensures Run(boundary, p) == Run(boundary, Step(boundary, p).p)
  {}

  lemma FindLineEnd(line: string, t: string)
    requires NoCrlf(line)
    ensures Find((line + CRLF) + t, CRLF) == Some(|line|)
  {
    var s := (line + CRLF) + t;
    assert s[|line|..|line| + 2] == CRLF;
    forall k | 0 <= k < |line|
      ensures !At(s, CRLF, k)
    {
      assert s[k..k + 2][0] == s[k] == line[k] && s[k..k + 2][1] == s[k + 1];
    }
    FindIsFirst(s, CRLF, |line|);
  }

  lemma HeaderStep(boundary: string, p: Parsing, line: string, t: string)
    requires p.state == 2 && p.buf == (line + CRLF) + t && line != "" && NoCrlf(line)
    ensures Run(boundary, p) == Run(boundary, p.(file := ReadHeader(line, p.file), buf := t))
  {
    FindLineEnd(line, t);
    assert p.buf[..|line|] == line && p.buf[|line| + 2..] == t;
    RunGo(boundary, p);
  }

  /** The description that the headers of an item leave behind. */
  function Described(item: FormData): FormData {
    match MatchDisposition(DispositionLine(item))
    case Some((name, filename)) => FormData(name, filename, item.contentType, "")
    case None => FormData("", "", item.contentType, "")
  }

  /** It is the item's own description exactly if no quote in the name is taken for its end. */
  lemma DescribedIff(item: FormData)
    requires PlainItem(item)
    ensures Described(item) == item.(content := "") <==> Unambiguous(item)
  {
    hide MatchDisposition, MatchName, DispositionLine, NameTail, Unambiguous, PlainItem;
    DispositionMatched(item);
    NameMatched(item);
  }

  function TypeLines(item: FormData): string { if item.contentType != "" then TypeLine(item) + CRLF else "" }

  /** The header lines up to the empty one. */
  lemma LinesParsed(boundary: string, p: Parsing, item: FormData, t: string)
    requires p.state == 2 && p.file == EMPTY_FILE && PlainItem(item)
    requires p.buf == (DispositionLine(item) + CRLF) + (TypeLines(item) + t)
    ensures Run(boundary, p) == Run(boundary, p.(file := Described(item), buf := t))
  {
    hide DispositionLine, MatchDisposition, StartsWith, TrimCopy, Find, Run, TypeLine, PlainItem;
    var line := DispositionLine(item);
    DispositionPlain(item);
    TypeMatched(item);
    assert NoCrlf(line);
    HeaderStep(boundary, p, line, TypeLines(item) + t);
    var file := ReadHeader(line, EMPTY_FILE);
    assert file.(contentType := item.contentType) == Described(item);
    var q := p.(file := file, buf := TypeLines(item) + t);
    if item.contentType != "" {
      HeaderStep(boundary, q, TypeLine(item), t);
    } else {
      NothingBefore(t);
    }
  }

  /** The empty line announces the item. */
  lemma EmptyLineParsed(boundary: string, p: Parsing, t: string)
    requires p.state == 2 && p.buf == CRLF + t
    ensures Run(boundary, p) == Run(boundary, p.(items := p.items + [p.file], buf := t, state := 3))
  {
    hide Find;
    NothingBefore(CRLF);
    FindLineEnd("", t);
    assert p.buf[2..] == t;
    RunGo(boundary, p);
  }

  /** From a new entry through its headers: the item is announced with its description, and the content is next. */
  lemma HeadersParsed(boundary: string, p: Parsing, item: FormData, t: string)
    requires p.state == 1 && p.buf == PartText(item) + t && PlainItem(item)
    ensures Run(boundary, p)
         == Run(boundary, Parsing(item.content + t, 3, p.isValid, Described(item), p.items + [Described(item)]))
  {
    hide Run, DispositionLine, TypeLine, PlainItem, Described;
    var line, types := DispositionLine(item), TypeLines(item);
    Assoc(line + CRLF, types + (CRLF + item.content), t);
    Assoc(types, CRLF + item.content, t);
    Assoc(CRLF, item.content, t);
    RunGo(boundary, p);
    var q := p.(file := EMPTY_FILE, state := 2);
    assert q.buf == (line + CRLF) + (types + (CRLF + (item.content + t)));
    LinesParsed(boundary, q, item, CRLF + (item.content + t));
    EmptyLineParsed(boundary, q.(file := Described(item), buf := CRLF + (item.content + t)), item.content + t);
  }

  lemma NothingBefore(s: string)
    ensures "" + s == s
  {}

  // ----- the end of the content

  function Delimiter(boundary: string): string { CRLF + DASH + boundary }

  predicate Contains(s: string, p: string) { Find(s, p).Some? }

  lemma AtShift(s: string, p: string, k: nat, m: nat)
    requires k <= |s|
    ensures At(s[k..], p, m) <==> At(s, p, k + m)
  {
    if k + m + |p| <= |s| {
      assert s[k..][m..m + |p|] == s[k + m..k + m + |p|];
    }
  }

  lemma FindShift(s: string, p: string, q: nat, k: nat)
    requires Find(s, p) == Some(q) && k <= q <= |s|
    ensures Find(s[k..], p) == Some(q - k)
  {
    hide At, Find;
    FindIsFirst(s, p, q);
    forall m: nat
      ensures At(s[k..], p, m) <==> At(s, p, k + m)
    {
      AtShift(s, p, k, m);
    }
    FindIsFirst(s[k..], p, q - k);
  }

  lemma DeliverTwice(items: seq<FormData>, a: string, b: string)
    ensures Deliver(Deliver(items, a), b) == Deliver(items, a + b)
  {
    if items != [] {
      Assoc(items[|items| - 1].content, a, b);
    }
  }

  /** One body step, given where the two searches stop. */
  lemma BodyStepAt(boundary: string, p: Parsing, pos: nat, r: nat, content: string, rest: string)
    requires Find(p.buf, CRLF + DASH) == Some(pos) && |CRLF + DASH| <= |p.buf|
    requires pos <= |p.buf| && Find(p.buf[pos..], Delimiter(boundary)) == Some(r)
    requires pos + r + |Delimiter(boundary)| <= |p.buf|
    requires content == p.buf[..pos] + p.buf[pos..][..r] && rest == p.buf[pos..][r + |Delimiter(boundary)|..]
    ensures StepBody(boundary, p) == Go(p.(items := Deliver(p.items, content), buf := rest, state := 4))
  {
    hide Find, Deliver, HeldBack, At;
    DeliverTwice(p.items, p.buf[..pos], p.buf[pos..][..r]);
  }

  lemma DashesBefore(s: string, boundary: string, q: nat) returns (pos: nat)
    requires Find(s, Delimiter(boundary)) == Some(q)
    ensures Find(s, CRLF + DASH) == Some(pos) && pos <= q && q + |Delimiter(boundary)| <= |s| && |CRLF + DASH| <= |s|
  {
    DelimiterStart(s, boundary, q);
    FindSome(s, CRLF + DASH, q);
    pos := Find(s, CRLF + DASH).value;
  }

  /** The content runs up to the first delimiter, also when the search for a line end before dashes stops earlier. */
  lemma BodyStepped(boundary: string, p: Parsing, q: nat)
    requires p.state == 3 && Find(p.buf, Delimiter(boundary)) == Some(q)
    ensures StepBody(boundary, p)
         == Go(p.(items := Deliver(p.items, p.buf[..q]), buf := p.buf[q + |Delimiter(boundary)|..], state := 4))
  {
    hide Find, Deliver, At, StepBody, Delimiter;
    var full := Delimiter(boundary);
    var pos := DashesBefore(p.buf, boundary, q);
    FindShift(p.buf, full, q, pos);
    Slices(p.buf, pos, q, |full|);
    BodyStepAt(boundary, p, pos, q - pos, p.buf[..q], p.buf[q + |full|..]);
  }

  lemma Slices(s: string, pos: nat, q: nat, n: nat)
    requires pos <= q && q + n <= |s|
    ensures s[..pos] + s[pos..][..q - pos] == s[..q] && s[pos..][q - pos + n..] == s[q + n..]
  {}

  lemma BodyParsed(boundary: string, p: Parsing, q: nat)
    requires p.state == 3 && Find(p.buf, Delimiter(boundary)) == Some(q)
    ensures Run(boundary, p)
         == Run(boundary, p.(items := Deliver(p.items, p.buf[..q]), buf := p.buf[q + |Delimiter(boundary)|..],
                             state := 4))
  {
    hide Find, Deliver, StepBody;
    BodyStepped(boundary, p, q);
    RunGo(boundary, p);
  }

  lemma DelimiterStart(s: string, boundary: string, q: nat)
    requires At(s, Delimiter(boundary), q)
    ensures At(s, CRLF + DASH, q)
  {
    var full := Delimiter(boundary);
    assert s[q..q + 4] == s[q..q + |full|][..4] == full[..4] == CRLF + DASH;
  }

  lemma FindSome(s: string, p: string, q: nat)
    requires At(s, p, q)
    ensures Find(s, p).Some? && Find(s, p).value <= q
  {
    FindIsFirst(s, p, q);
    if Find(s, p).Some? {
      FindIsFirst(s, p, Find(s, p).value);
    }
  }

  /** Where the delimiter after a content is found: right after it, unless the content holds one itself. */
  lemma ContentEnd(content: string, boundary: string, t: string)
    requires GoodBoundary(boundary)
    ensures var full := Delimiter(boundary);
            Find(content + (full + t), full) == if Contains(content, full) then Find(content, full) else Some(|content|)
  {
    var full := Delimiter(boundary);
    var s := content + (full + t);
    OccurrencesAgree(content, boundary, t);
    if Contains(content, full) {
      var q := Find(content, full).value;
      assert q < |content|;
      FindIsFirst(content, full, q);
      FindIsFirst(s, full, q);
    } else {
      FindIsFirst(content, full, 0);
      FindIsFirst(s, full, |content|);
    }
  }

  lemma OccurrencesAgree(content: string, boundary: string, t: string)
    requires GoodBoundary(boundary)
    ensures var full := Delimiter(boundary);
            var s := content + (full + t);
            At(s, full, |content|) && forall k :: 0 <= k < |content| ==> (At(s, full, k) <==> At(content, full, k))
  {
    var full := Delimiter(boundary);
    var s := content + (full + t);
    assert s[|content|..|content| + |full|] == full;
    assert full[0] == '\r' && s[|content|] == '\r';
    forall k | 0 <= k < |content|
      ensures At(s, full, k) <==> At(content, full, k)
    {
      NoOverlap(boundary, |content| - k);
      if k + |full| <= |content| {
        assert s[k..k + |full|] == content[k..k + |full|];
      } else if k + |full| <= |s| {
        assert s[k..k + |full|][|content| - k] == s[|content|];
      }
    }
  }

  /** A delimiter holds its carriage return only at its start. */
  lemma NoOverlap(boundary: string, m: nat)
    requires GoodBoundary(boundary) && 0 < m
    ensures m < |Delimiter(boundary)| ==> Delimiter(boundary)[m] != '\r'
  {
    if 4 <= m < |Delimiter(boundary)| {
      assert Delimiter(boundary)[m] == boundary[m - 4];
    }
  }

  // ----- whole bodies

  /** The items that no later step can change: all but the one whose content is still arriving. */
  function Closed(p: Parsing): seq<FormData> {
    if p.state == 3 && p.items != [] then p.items[..|p.items| - 1] else p.items
  }

  lemma StepKeepsClosed(boundary: string, p: Parsing)
    requires p.buf != ""
    ensures Closed(p) <= Closed(Step(boundary, p).p)
  {
    hide Find, ReadHeader, HeldBack;
  }

  lemma {:induction false} RunKeepsClosed(boundary: string, p: Parsing)
    ensures Closed(p) <= Run(boundary, p).0.items
    decreases |p.buf|, p.state == 1
  {
    hide Step;
    if p.buf != "" {
      StepKeepsClosed(boundary, p);
      if Step(boundary, p).Go? {
        RunKeepsClosed(boundary, Step(boundary, p).p);
      }
    }
  }

  /** What the receiver gets of an item: its description, and its content up to the first delimiter inside it. */
  function Received(item: FormData, boundary: string): FormData {
    match Find(item.content, Delimiter(boundary))
    case Some(q) => Described(item).(content := item.content[..q])
    case None => Described(item).(content := item.content)
  }

  lemma ReceivedIff(item: FormData, boundary: string)
    requires PlainItem(item)
    ensures Received(item, boundary) == item <==> Unambiguous(item) && !Contains(item.content, Delimiter(boundary))
  {
    hide Unambiguous, Find, PlainItem;
    DescribedIff(item);
    var found := Find(item.content, Delimiter(boundary));
    if found.Some? {
      assert |item.content[..found.value]| < |item.content|;
    }
  }

  /** What is before the first delimiter, and what is left behind it. */
  lemma ContentCut(boundary: string, content: string, t: string, k: nat)
    requires GoodBoundary(boundary)
    requires Find(content + (Delimiter(boundary) + t), Delimiter(boundary)) == Some(k)
    ensures var s, full := content + (Delimiter(boundary) + t), Delimiter(boundary);
            && k <= |s|
            && (Contains(content, full) ==> Find(content, full) == Some(k))
            && s[..k] == (if Contains(content, full) then content[..k] else content)
            && (!Contains(content, full) ==> k + |full| <= |s| && s[k + |full|..] == t)
  {
    hide Find, Delimiter;
    ContentEnd(content, boundary, t);
  }

  /** What the content callback adds up to. */
  lemma ContentDelivered(boundary: string, items: seq<FormData>, item: FormData, k: nat)
    requires var full := Delimiter(boundary); Contains(item.content, full) ==> Find(item.content, full) == Some(k)
    ensures var d := if Contains(item.content, Delimiter(boundary)) then item.content[..k] else item.content;
            Deliver(items + [Described(item)], d) == items + [Received(item, boundary)]
  {
    hide Find, Delimiter;
    var d := if Contains(item.content, Delimiter(boundary)) then item.content[..k] else item.content;
    NothingBefore(d);
    assert Described(item).(content := d) == Received(item, boundary) && Described(item).content == "";
  }

  /** From a new entry to the end of its content. */
  lemma ItemParsed(boundary: string, p: Parsing, item: FormData, t: string) returns (q: Parsing)
    requires GoodBoundary(boundary) && PlainItem(item)
    requires p.state == 1 && p.buf == PartText(item) + (Delimiter(boundary) + t)
    ensures Run(boundary, p) == Run(boundary, q)
    ensures q.state == 4 && q.isValid == p.isValid && q.items == p.items + [Received(item, boundary)]
    ensures !Contains(item.content, Delimiter(boundary)) ==> q.buf == t
  {
    hide PartText, Run, Delimiter, PlainItem, Find, Deliver, Described, Received;
    var full, file := Delimiter(boundary), Described(item);
    var s := item.content + (full + t);
    HeadersParsed(boundary, p, item, full + t);
    ContentEnd(item.content, boundary, t);
    var k := Find(s, full).value;
    ContentCut(boundary, item.content, t, k);
    ContentDelivered(boundary, p.items, item, k);
    var mid := Parsing(s, 3, p.isValid, file, p.items + [file]);
    BodyParsed(boundary, mid, k);
    q := mid.(items := Deliver(mid.items, s[..k]), buf := s[k + |full|..], state := 4);
  }

  predicate AllPlain(items: seq<FormData>) { forall k :: 0 <= k < |items| ==> PlainItem(items[k]) }

  /** The items that arrive as sent. */
  predicate AllExact(items: seq<FormData>, boundary: string) {
    forall k :: 0 <= k < |items| ==> Received(items[k], boundary) == items[k]
  }

  /** Whether the items of a run come out as sent. */
  predicate Delivered(boundary: string, p: Parsing, items: seq<FormData>) {
    var (q, ret) := Run(boundary, p);
    if AllExact(items, boundary) then ret && q.isValid && q.items == p.items + items
    else q.items != p.items + items
  }

  lemma {:induction false} TailParsed(boundary: string, p: Parsing, items: seq<FormData>)
    requires GoodBoundary(boundary) && items != [] && AllPlain(items)
    requires p.state == 1 && p.buf == Tail(items, boundary)
    ensures Delivered(boundary, p, items)
    decreases |items|
  {
    hide PartText, Contains, Unambiguous, PlainItem, Received, Run;
    var item, rest := items[0], items[1..];
    var t := if rest == [] then DASH + CRLF else CRLF + Tail(rest, boundary);
    assert p.buf == PartText(item) + (Delimiter(boundary) + t);
    var q := ItemParsed(boundary, p, item, t);
    ReceivedIff(item, boundary);
    if Received(item, boundary) != item {
      DirtyItem(boundary, p, q, items);
    } else if rest == [] {
      LastBoundary(boundary, q);
      assert items == [item];
    } else {
      var next := NextEntry(boundary, q, Tail(rest, boundary));
      assert AllPlain(rest);
      TailParsed(boundary, next, rest);
      ExactItemFirst(boundary, p, q, next, items);
    }
  }

  /** An item that arrived differently is never mended. */
  lemma DirtyItem(boundary: string, p: Parsing, q: Parsing, items: seq<FormData>)
    requires items != [] && Received(items[0], boundary) != items[0]
    requires Run(boundary, p) == Run(boundary, q) && q.state == 4
    requires q.items == p.items + [Received(items[0], boundary)]
    ensures Delivered(boundary, p, items)
  {
    hide Run, Received;
    RunKeepsClosed(boundary, q);
    assert Run(boundary, q).0.items[|p.items|] == q.items[|p.items|] != (p.items + items)[|p.items|];
  }

  lemma ExactItemFirst(boundary: string, p: Parsing, q: Parsing, next: Parsing, items: seq<FormData>)
    requires |items| > 1 && Received(items[0], boundary) == items[0]
    requires Run(boundary, p) == Run(boundary, q) == Run(boundary, next)
    requires next.items == q.items == p.items + [items[0]]
    requires Delivered(boundary, next, items[1..])
    ensures Delivered(boundary, p, items)
  {
    hide Run, Received, AllExact;
    RestExact(items, boundary);
    MoveFirst(p.items, items);
  }

  lemma MoveFirst<T>(done: seq<T>, todo: seq<T>)
    requires todo != []
    ensures done + todo == (done + [todo[0]]) + todo[1..]
  {}

  lemma RestExact(items: seq<FormData>, boundary: string)
    requires items != [] && Received(items[0], boundary) == items[0]
    ensures AllExact(items, boundary) <==> AllExact(items[1..], boundary)
  {
    hide Received;
    assert forall k :: 0 < k < |items| ==> items[k] == items[1..][k - 1];
  }

  /** A line end behind the boundary starts the next entry. */
  lemma NextEntry(boundary: string, q: Parsing, t: string) returns (next: Parsing)
    requires q.state == 4 && q.buf == CRLF + t
    ensures next == q.(buf := t, state := 1) && Run(boundary, q) == Run(boundary, next)
  {
    assert q.buf[..2] == CRLF && q.buf[2..] == t;
    RunGo(boundary, q);
    next := q.(buf := t, state := 1);
  }

  lemma LastBoundary(boundary: string, q: Parsing)
    requires q.state == 4 && q.buf == DASH + CRLF
    ensures Run(boundary, q) == (q.(buf := "", isValid := true, state := 5), true)
  {
    assert q.buf[..2] != CRLF;
    assert q.buf[..4] == DASH + CRLF && q.buf[4..] == "";
    RunGo(boundary, q);
  }

  // ----- what a parser can announce at all

  lemma {:induction false} TrimKeepsNoCrlf(s: string)
    requires NoCrlf(s)
    ensures NoCrlf(TrimLeft(s)) && NoCrlf(TrimRight(s))
    decreases |s|
  {
    if s != "" {
      TrimKeepsNoCrlf(s[1..]);
      TrimKeepsNoCrlf(s[..|s| - 1]);
    }
  }

  lemma {:induction false} FilenameOneLine(s: string, k: nat)
    requires k <= |s| && OneLine(s[..k])
    ensures FilenameEnd(s, k).Some? ==> OneLine(s[..FilenameEnd(s, k).value])
    decreases |s| - k
  {
    if k < |s| && !LineEnd(s[k]) {
      assert s[..k + 1] == s[..k] + [s[k]];
      FilenameOneLine(s, k + 1);
    }
  }

  lemma {:induction false} MatchNameOneLine(s: string, k: nat)
    requires k <= |s| && OneLine(s[..k])
    ensures MatchName(s, k).Some? ==> OneLine(MatchName(s, k).value.0) && OneLine(MatchName(s, k).value.1)
    decreases |s| - k
  {
    hide MatchFilename;
    if k < |s| {
      MatchFilenameOneLine(s[k + 1..]);
      if !LineEnd(s[k]) {
        assert s[..k + 1] == s[..k] + [s[k]];
        MatchNameOneLine(s, k + 1);
      }
    }
  }

  lemma MatchFilenameOneLine(s: string)
    ensures MatchFilename(s).Some? ==> OneLine(MatchFilename(s).value)
  {
    var t := if s != "" && s[0] == ';' then SkipSpaces(s[1..]) else "";
    if StartsWith(t, FILENAME_IS) {
      FilenameOneLine(t[|FILENAME_IS|..], 0);
    }
  }

  lemma ReadHeaderPlain(header: string, file: FormData)
    requires NoCrlf(header) && PlainItem(file)
    ensures PlainItem(ReadHeader(header, file))
  {
    if StartsWith(header, CONTENT_TYPE) {
      var x := header[|CONTENT_TYPE|..];
      assert NoCrlf(x);
      TrimKeepsNoCrlf(x);
      TrimKeepsNoCrlf(TrimLeft(x));
      TrimTwice(x);
    } else if MatchDisposition(header).Some? {
      var a := SkipSpaces(header[|DISPOSITION|..]);
      var b := SkipSpaces(a[|FORM_DATA|..]);
      MatchNameOneLine(b[|NAME_IS|..], 0);
    }
  }

  /** Every description, announced or in the making, is plain. */
  predicate PlainParsing(p: Parsing) { PlainItem(p.file) && AllPlain(p.items) }

  lemma DeliverPlain(items: seq<FormData>, d: string)
    requires AllPlain(items)
    ensures AllPlain(Deliver(items, d))
  {}

  lemma StepKeepsPlain(boundary: string, p: Parsing)
    requires PlainParsing(p)
    ensures PlainParsing(Step(boundary, p).p)
  {
    hide Find, ReadHeader, StepBody;
    match p.state {
      case 2 =>
        var pos := Find(p.buf, CRLF);
        if pos.Some? {
          HeaderNoCrlf(p.buf, pos.value);
          ReadHeaderPlain(p.buf[..pos.value], p.file);
        }
      case 3 =>
        BodyKeepsPlain(boundary, p);
      case _ =>
    }
  }

  lemma BodyKeepsPlain(boundary: string, p: Parsing)
    requires PlainParsing(p)
    ensures PlainParsing(StepBody(boundary, p).p)
  {
    hide Find, HeldBack, Deliver, PlainItem, AllPlain;
    forall items, d | AllPlain(items)
      ensures AllPlain(Deliver(items, d))
    {
      DeliverPlain(items, d);
    }
  }

  lemma HeaderNoCrlf(s: string, pos: nat)
    requires Find(s, CRLF) == Some(pos)
    ensures pos <= |s| && NoCrlf(s[..pos])
  {
    hide Find;
    FindIsFirst(s, CRLF, pos);
    forall k | 0 <= k < pos - 1
      ensures s[..pos][k] != '\r' || s[..pos][k + 1] != '\n'
    {
      NotAtCrlf(s, k);
    }
  }

  lemma NotAtCrlf(s: string, k: nat)
    requires k + 1 < |s| && !At(s, CRLF, k)
    ensures s[k] != '\r' || s[k + 1] != '\n'
  {
    assert s[k..k + 2] == [s[k], s[k + 1]];
  }

  lemma {:induction false} RunKeepsPlain(boundary: string, p: Parsing)
    requires PlainParsing(p)
    ensures AllPlain(Run(boundary, p).0.items)
    decreases |p.buf|, p.state == 1
  {
    hide Step, PlainItem;
    if p.buf != "" {
      StepKeepsPlain(boundary, p);
      if Step(boundary, p).Go? {
        RunKeepsPlain(boundary, Step(boundary, p).p);
      }
    }
  }

  // ----- whole bodies sent and read

  /** The closing boundary alone does not start a body. */
  lemma NoOpening(boundary: string)
    ensures !At(Body([], boundary), DASH + boundary + CRLF, 0)
  {
    var open := DASH + boundary + CRLF;
    assert Body([], boundary)[|DASH + boundary|] == '-' && open[|DASH + boundary|] == '\r';
    assert Body([], boundary)[0..|open|][|DASH + boundary|] == '-';
  }

  /** One call of parse over a body reproduces the items and ends valid. */
  predicate RoundTrips(items: seq<FormData>, boundary: string) {
    var (q, ret) := Run(boundary, Parsing(Body(items, boundary), 0, false, EMPTY_FILE, []));
    ret && q.isValid && q.items == items
  }

  /** With plain descriptions the round trip holds exactly when there is an item and each arrives as sent. */
  lemma PlainRoundTrip(items: seq<FormData>, boundary: string)
    requires GoodBoundary(boundary) && AllPlain(items)
    ensures RoundTrips(items, boundary) <==> items != [] && AllExact(items, boundary)
  {
    hide AllExact, PlainItem, Find, Tail;
    var p := Parsing(Body(items, boundary), 0, false, EMPTY_FILE, []);
    var open := DASH + boundary + CRLF;
    if items == [] {
      NoOpening(boundary);
      FindIsFirst(p.buf, open, 0);
    } else {
      var t := Tail(items, boundary);
      Assoc(DASH + boundary, CRLF, t);
      assert p.buf == open + t;
      assert p.buf[0..|open|] == open && p.buf[|open|..] == t;
      FindIsFirst(p.buf, open, 0);
      RunGo(boundary, p);
      TailParsed(boundary, p.(buf := t, state := 1), items);
      assert [] + items == items;
    }
  }

  /** An item that survives: clean headers, and no delimiter inside the content. */
  predicate Survives(item: FormData, boundary: string) {
    CleanHeaders(item) && !Contains(item.content, Delimiter(boundary))
  }

  /** The round trip holds exactly when there is an item, and every item has clean headers and no delimiter inside. */
  lemma MultipartRoundTrip(items: seq<FormData>, boundary: string)
    requires GoodBoundary(boundary)
    ensures RoundTrips(items, boundary)
       <==> items != [] && forall k :: 0 <= k < |items| ==> Survives(items[k], boundary)
  {
    hide Received, Run, Contains, Unambiguous, Body;
    if AllPlain(items) {
      PlainRoundTrip(items, boundary);
      forall k | 0 <= k < |items|
        ensures Survives(items[k], boundary) <==> Received(items[k], boundary) == items[k]
      {
        ReceivedIff(items[k], boundary);
      }
    } else {
      assert TrimCopy("") == "";
      RunKeepsPlain(boundary, Parsing(Body(items, boundary), 0, false, EMPTY_FILE, []));
    }
  }

  // ----- what is accepted at all

  predicate EndsWith(s: string, x: string) { |x| <= |s| && s[|s| - |x|..] == x }

  /** The closing line, with the line end before it. */
  function Closing(boundary: string): string { "\r\n--" + boundary + "--\r\n" }

  lemma EndsBehind(s: string, t: string, x: string)
    requires |t| <= |s| && s[|s| - |t|..] == t && EndsWith(t, x)
    ensures EndsWith(s, x)
  {
    assert s[|s| - |x|..] == t[|t| - |x|..];
  }

  lemma ClosingBehind(boundary: string, s: string, k: nat)
    requires At(s, Delimiter(boundary), k) && s[k + |Delimiter(boundary)|..] == "--\r\n"
    ensures EndsWith(s, Closing(boundary))
  {
    var full := Delimiter(boundary);
    assert s[k..] == s[k..k + |full|] + s[k + |full|..];
    Assoc("\r\n--", boundary, "--\r\n");
    assert Closing(boundary) == full + "--\r\n";
  }

  /** What the rest of the bytes must be for the parser to end valid. */
  predicate MayEndValid(boundary: string, p: Parsing) {
    if p.state > 4 then p.isValid && p.buf == ""
    else EndsWith(p.buf, Closing(boundary)) || (p.state == 4 && p.buf == "--\r\n")
  }

  /** What a step leaves is a rest of what it got, and what leads to a valid end did so before. */
  lemma StepMayEndValid(boundary: string, p: Parsing)
    requires p.buf != "" && (p.isValid ==> p.state > 4)
    requires Step(boundary, p).Go? && MayEndValid(boundary, Step(boundary, p).p)
    ensures MayEndValid(boundary, p)
  {
    hide Find, ReadHeader, HeldBack, Deliver, Closing, StepBody, EndsWith;
    var q := Step(boundary, p).p;
    if p.state == 3 {
      BodyMayEndValid(boundary, p);
    } else {
      assert p.buf[|p.buf| - |q.buf|..] == q.buf;
      if EndsWith(q.buf, Closing(boundary)) {
        EndsBehind(p.buf, q.buf, Closing(boundary));
      }
    }
  }

  lemma BodyMayEndValid(boundary: string, p: Parsing)
    requires p.state == 3 && !p.isValid && StepBody(boundary, p).Go?
    requires MayEndValid(boundary, StepBody(boundary, p).p)
    ensures EndsWith(p.buf, Closing(boundary))
  {
    hide StepBody, Closing, EndsWith, At;
    var q := StepBody(boundary, p).p;
    BodyLeavesRest(boundary, p);
    if EndsWith(q.buf, Closing(boundary)) {
      EndsBehind(p.buf, q.buf, Closing(boundary));
    } else {
      ClosingBehind(boundary, p.buf, |p.buf| - |q.buf| - |Delimiter(boundary)|);
    }
  }

  /** A step through the content leaves a rest of the bytes, and enters state 4 right behind a delimiter. */
  lemma BodyLeavesRest(boundary: string, p: Parsing)
    requires StepBody(boundary, p).Go?
    ensures var q, n := StepBody(boundary, p).p, |Delimiter(boundary)|;
            && n <= |p.buf| - |q.buf| && p.buf[|p.buf| - |q.buf|..] == q.buf
            && (q.state == p.state || (q.state == 4 && At(p.buf, Delimiter(boundary), |p.buf| - |q.buf| - n)))
            && q.isValid == p.isValid
  {
    hide Find, HeldBack, Deliver, At;
    var full := Delimiter(boundary);
    var found := Find(p.buf, CRLF + DASH);
    if found.Some? {
      AtBound(p.buf, CRLF + DASH, found.value);
    }
    var pos := match found case Some(k) => k case None => HeldBack(p.buf, |p.buf|);
    var rest := p.buf[pos..];
    match Find(rest, full) {
      case Some(m) => AtInRest(p.buf, pos, full, m);
      case None => RestOfRest(p.buf, pos, |full|);
    }
  }

  lemma AtBound(s: string, p: string, k: nat)
    requires At(s, p, k)
    ensures k + |p| <= |s|
  {}

  lemma RestOfRest(s: string, pos: nat, n: nat)
    requires pos + n <= |s|
    ensures s[pos..][n..] == s[pos + n..] && |s[pos..][n..]| == |s| - pos - n
  {}

  lemma AtInRest(s: string, pos: nat, p: string, m: nat)
    requires pos <= |s| && At(s[pos..], p, m)
    ensures At(s, p, pos + m) && pos + m + |p| <= |s|
    ensures s[pos..][m + |p|..] == s[pos + m + |p|..] && |s[pos..][m + |p|..]| == |s| - pos - m - |p|
  {
    assert s[pos..][m..m + |p|] == s[pos + m..pos + m + |p|];
  }

  lemma {:induction false} RunMayEndValid(boundary: string, p: Parsing)
    requires p.isValid ==> p.state > 4
    ensures Run(boundary, p).0.isValid ==> MayEndValid(boundary, p)
    decreases |p.buf|, p.state == 1
  {
    hide MayEndValid, StepBody, StepHeaders, StepStart;
    if p.buf == "" {
      EmptyMayEndValid(boundary, p);
    } else if Step(boundary, p).Go? {
      var q := Step(boundary, p).p;
      StepStaysInvalid(boundary, p);
      RunMayEndValid(boundary, q);
      if MayEndValid(boundary, q) {
        StepMayEndValid(boundary, p);
      }
    } else {
      StepStaysInvalid(boundary, p);
    }
  }

  lemma EmptyMayEndValid(boundary: string, p: Parsing)
    requires p.buf == "" && (p.isValid ==> p.state > 4)
    ensures p.isValid ==> MayEndValid(boundary, p)
  {}

  /** Only the closing dashes make the parser valid, and anything behind them makes it invalid. */
  lemma StepStaysInvalid(boundary: string, p: Parsing)
    requires p.isValid ==> p.state > 4
    ensures var n := Step(boundary, p);
            && (n.p.isValid ==> n.p.state > 4)
            && (n.Stop? ==> !n.p.isValid)
  {
    hide Find, ReadHeader, HeldBack, Deliver;
  }

  /** Whatever bytes are accepted begin with the opening line and end with the closing line. */
  lemma AcceptedShape(boundary: string, s: string)
    requires Run(boundary, Parsing(s, 0, false, EMPTY_FILE, [])).0.isValid
    ensures "--" + boundary + "\r\n" <= s
    ensures EndsWith(s, "\r\n--" + boundary + "--\r\n")
  {
    hide Find, EndsWith, StepBody, StepHeaders;
    var p, open := Parsing(s, 0, false, EMPTY_FILE, []), DASH + boundary + CRLF;
    RunMayEndValid(boundary, p);
    FindIsFirst(s, open, 0);
    assert s[0..|open|] == s[..|open|];
  }

  // ----- examples

  /** No items: the body is refused. */
  lemma NothingSent()
    ensures !RoundTrips([], "b")
  {
    MultipartRoundTrip([], "b");
  }

  /** A delimiter inside the content cuts it short. */
  lemma DelimiterCutsContent()
    ensures !RoundTrips([FormData("n", "", "", "\r\n--b")], "b")
  {
    var items := [FormData("n", "", "", "\r\n--b")];
    var full := Delimiter("b");
    assert items[0].content[0..5] == full;
    FindSome(items[0].content, full, 0);
    MultipartRoundTrip(items, "b");
    assert !Survives(items[0], "b");
  }

  /** A quote in the name is harmless if no filename field seems to follow. */
  lemma HarmlessQuote(boundary: string)
    requires GoodBoundary(boundary)
    ensures RoundTrips([FormData("a\"b", "", "", "")], boundary)
  {
    hide MatchFilename;
    var item := FormData("a\"b", "", "", "");
    assert NameTail(item)[2..] == "b\"";
    assert TrimCopy("") == "";
    assert PlainItem(item) && Unambiguous(item);
    assert !Contains("", Delimiter(boundary));
    MultipartRoundTrip([item], boundary);
  }

  /** One that seems to open a filename field is taken for the end of the name. */
  lemma MisleadingQuote(boundary: string)
    requires GoodBoundary(boundary)
    ensures !RoundTrips([FormData("x\"; filename=\"y", "", "", "")], boundary)
  {
    hide Unambiguous, PlainItem;
    var item := FormData("x\"; filename=\"y", "", "", "");
    Misleads(item);
    MultipartRoundTrip([item], boundary);
    assert !Survives([item][0], boundary);
  }

  lemma Misleads(item: FormData)
    requires item.name == "x\"; filename=\"y" && item.filename == ""
    ensures !Unambiguous(item)
  {
    hide SkipSpaces, StartsWith;
    var t := FILENAME_IS + "y\"";
    var rest := ";" + (" " + t);
    assert NameTail(item)[2..] == rest && rest[1..] == " " + t;
    SkipOne(t);
    DropPrefix(FILENAME_IS, "y\"");
    assert Reopens(rest) && item.name[1] == '"';
  }
}
