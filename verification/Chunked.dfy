/**
 The chunked coding of httplib.h (section 4.1 of RFC 7230): the emitting sink, the line reader with its
 fixed and growable buffers, and the reading loop, over streams that read and write in arbitrary pieces.
 */
module Chunked {
  import opened Text
  import opened Wrappers

  type Bytes = seq<char>

  const ULONG_MAX: nat := 0xffff_ffff_ffff_ffff
  const RECV_BUFSIZ: nat := 4096

  // ----- sizes in hexadecimal

  const HEX_DIGITS: string := "0123456789abcdef"

  function Hex(n: nat): (s: Bytes)
    ensures s != []
  {
    if n < 16 then [HEX_DIGITS[n]] else Hex(n / 16) + [HEX_DIGITS[n % 16]]
  }

  method FromIToHex(size: nat) returns (ret: Bytes)
    ensures ret == Hex(size)
  {
    hide Hex;
    ret := [HEX_DIGITS[size % 16]];
    var n := size / 16;
    HexDigit(size, []);
    assert Hex(size) + [] == Hex(size) && [HEX_DIGITS[size % 16]] + [] == [HEX_DIGITS[size % 16]];
    while n > 0
      invariant Hex(size) == if n > 0 then Hex(n) + ret else ret
    {
      HexDigit(n, ret);
      ret := [HEX_DIGITS[n % 16]] + ret;
      n := n / 16;
    }
  }

  /** The last digit of a number, in front of what is already printed. */
  lemma HexDigit(n: nat, ret: Bytes)
    ensures var more := [HEX_DIGITS[n % 16]] + ret;
            Hex(n) + ret == if n / 16 > 0 then Hex(n / 16) + more else more
  {
    if n >= 16 {
      Assoc(Hex(n / 16), [HEX_DIGITS[n % 16]], ret);
    }
  }

  /** The end of the run of hexadecimal digits at i, and the number it spells after v. */
  function DigitsEnd(s: Bytes, i: nat): (e: nat)
    requires i <= |s|
    ensures i <= e <= |s|
    decreases |s| - i
  {
    if i < |s| && IsHex(s[i]) then DigitsEnd(s, i + 1) else i
  }

  function Spelled(s: Bytes): nat {
    if s == [] then 0 else Spelled(s[..|s| - 1]) * 16 + HexValue(s[|s| - 1])
  }

  function SpacesEnd(s: Bytes, i: nat): (e: nat)
    requires i <= |s|
    ensures i <= e <= |s|
    decreases |s| - i
  {
    if i < |s| && IsSpace(s[i]) then SpacesEnd(s, i + 1) else i
  }

  /** strtoul in base 16: the value, capped or negated as for an unsigned long, and how much was read. */
  function Strtoul16(s: Bytes): (r: (nat, nat))
    ensures r.0 <= ULONG_MAX && r.1 <= |s|
  {
    var a := SpacesEnd(s, 0);
    var negative := a < |s| && s[a] == '-';
    var b := if a < |s| && (s[a] == '-' || s[a] == '+') then a + 1 else a;
    var c := if b + 2 < |s| && s[b] == '0' && (s[b + 1] == 'x' || s[b + 1] == 'X') && IsHex(s[b + 2])
             then b + 2 else b;
    var e := DigitsEnd(s, c);
    if e == c then (0, 0)
    else
      var v := Spelled(s[c..e]);
      (if v > ULONG_MAX then ULONG_MAX else if negative then (ULONG_MAX + 1 - v) % (ULONG_MAX + 1) else v, e)
  }

  lemma {:induction false} HexSpells(n: nat)
    ensures Spelled(Hex(n)) == n
    ensures forall k :: 0 <= k < |Hex(n)| ==> IsHex(Hex(n)[k]) && Hex(n)[k] != '\n'
  {
    assert forall d :: 0 <= d < 16 ==> HexValue(HEX_DIGITS[d]) == d && HEX_DIGITS[d] != '\n';
    if n >= 16 {
      HexSpells(n / 16);
      assert Hex(n)[..|Hex(n)| - 1] == Hex(n / 16);
    } else {
      assert Hex(n)[..0] == [];
    }
  }

  lemma {:induction false} DigitsEndAt(s: Bytes, i: nat, e: nat)
    requires i <= e < |s| && !IsHex(s[e])
    requires forall k :: i <= k < e ==> IsHex(s[k])
    ensures DigitsEnd(s, i) == e
    decreases e - i
  {
    if i < e {
      DigitsEndAt(s, i + 1, e);
    }
  }

  /** Plain digits before a line end are read as the number they spell. */
  lemma PlainDigits(d: Bytes)
    requires d != [] && (forall k :: 0 <= k < |d| ==> IsHex(d[k])) && Spelled(d) <= ULONG_MAX
    ensures Strtoul16(d + "\r\n") == (Spelled(d), |d|)
  {
    hide IsHex, Spelled, DigitsEnd, Strtoul16;
    var s := d + "\r\n";
    DigitsBeforeCrlf(d);
    NotADigit();
    assert s[1] == if |d| > 1 then d[1] else '\r';
    StrtoulPlain(s, |d|);
  }

  lemma StrtoulPlain(s: Bytes, e: nat)
    requires 0 < e < |s| && DigitsEnd(s, 0) == e && IsHex(s[0]) && s[1] != 'x' && s[1] != 'X'
    requires Spelled(s[0..e]) <= ULONG_MAX
    ensures Strtoul16(s) == (Spelled(s[0..e]), e)
  {
    hide IsHex, Spelled, DigitsEnd;
    NotADigit();
    assert SpacesEnd(s, 0) == 0;
  }

  lemma DigitsBeforeCrlf(d: Bytes)
    requires d != [] && (forall k :: 0 <= k < |d| ==> IsHex(d[k]))
    ensures var s := d + "\r\n"; DigitsEnd(s, 0) == |d| && s[0..|d|] == d && s[0] == d[0] && s[|d|] == '\r'
  {
    var s := d + "\r\n";
    assert forall k :: 0 <= k < |d| ==> s[k] == d[k];
    DigitsEndAt(s, 0, |d|);
  }

  lemma NotADigit()
    ensures forall c :: IsHex(c) ==> !IsSpace(c) && c != '-' && c != '+' && c != 'x' && c != 'X'
  {}

  /** The size line that the printer writes is read back exactly. */
  lemma HexRoundTrip(n: nat)
    requires n <= ULONG_MAX
    ensures Strtoul16(Hex(n) + "\r\n") == (n, |Hex(n)|)
  {
    hide Hex, Spelled, Strtoul16, IsHex;
    HexSpells(n);
    PlainDigits(Hex(n));
  }

  // ----- streams and lines

  /** A byte stream: reads return any positive number of the bytes asked for, and nothing at the end. */
  class Stream {
    const data: Bytes
    var pos: nat

    ghost predicate Valid()
      reads this
    {
      pos <= |data|
    }

    ghost function Rest(): Bytes
      requires Valid()
      reads this
    {
      data[pos..]
    }

    constructor (data: Bytes)
      ensures Valid() && Rest() == data
    {
      this.data := data;
      pos := 0;
    }

    method Read(size: nat) returns (buf: Bytes)
      requires Valid() && size > 0
      modifies this
      ensures Valid() && old(Rest()) == buf + Rest()
      ensures |buf| <= size && (old(Rest()) != [] ==> buf != [])
    {
      var available := |data| - pos;
      if available == 0 {
        return [];
      }
      var n: nat :| 1 <= n <= size && n <= available;
      buf := data[pos..pos + n];
      pos := pos + n;
    }
  }

  /** A line: everything up to and including the first newline, or everything. */
  function LineOf(s: Bytes): (line: Bytes)
    ensures |line| <= |s| && line == s[..|line|]
    ensures s != [] ==> line != []
  {
    if s == [] then [] else if s[0] == '\n' then [s[0]] else [s[0]] + LineOf(s[1..])
  }

  function AfterLine(s: Bytes): Bytes { s[|LineOf(s)|..] }

  /** What a C string function sees of a buffer: the part before the first NUL. */
  function CStr(s: Bytes): (c: Bytes)
    ensures |c| <= |s|
  {
    if s == [] || s[0] == '\0' then [] else [s[0]] + CStr(s[1..])
  }

  lemma LineStep(all: Bytes, i: nat, byte: char, line: Bytes)
    requires i < |all| && all[i] == byte && LineOf(all) == line + LineOf(all[i..]) && i == |line|
    ensures all[i..][1..] == all[i + 1..]
    ensures LineOf(all) == if byte == '\n' then line + [byte] else (line + [byte]) + LineOf(all[i + 1..])
    ensures byte == '\n' ==> AfterLine(all) == all[i + 1..]
  {
    assert all[i..][1..] == all[i + 1..];
    Assoc(line, [byte], LineOf(all[i + 1..]));
  }

  lemma LineEnd(all: Bytes, i: nat, line: Bytes)
    requires i <= |all| && all[i..] == [] && LineOf(all) == line + LineOf(all[i..]) && i == |line|
    ensures i == |all| && LineOf(all) == line && AfterLine(all) == []
  {}

  class StreamLineReader {
    const strm: Stream
    const fixedBuffer: array<char>
    var fixedBufferUsedSize: nat
    var growableBuffer: Bytes

    ghost predicate Valid()
      reads this, fixedBuffer
    {
      && fixedBuffer.Length >= 2 && fixedBufferUsedSize < fixedBuffer.Length
      && (fixedBufferUsedSize > 0 ==> fixedBuffer[fixedBufferUsedSize] == '\0')
      && (growableBuffer != [] ==> fixedBufferUsedSize == fixedBuffer.Length - 1)
    }

    /** The bytes that ptr() and size() denote. */
    function Line(): Bytes
      reads this, fixedBuffer
      requires fixedBufferUsedSize <= fixedBuffer.Length
    {
      if growableBuffer == [] then fixedBuffer[..fixedBufferUsedSize] else growableBuffer
    }

    constructor (strm: Stream, bufsiz: nat)
      requires bufsiz >= 2
      ensures Valid() && fresh(fixedBuffer) && this.strm == strm
    {
      this.strm := strm;
      fixedBuffer := new char[bufsiz](_ => '\0');
      fixedBufferUsedSize := 0;
      growableBuffer := [];
    }

    /** The line just appended to: the fixed buffer first, then everything in the growable one. */
    method Append(c: char)
      requires Valid()
      modifies this, fixedBuffer
      ensures Valid() && Line() == old(Line()) + [c]
    {
      if fixedBufferUsedSize < fixedBuffer.Length - 1 {
        fixedBuffer[fixedBufferUsedSize] := c;
        fixedBufferUsedSize := fixedBufferUsedSize + 1;
        fixedBuffer[fixedBufferUsedSize] := '\0';
      } else {
        if growableBuffer == [] {
          assert fixedBuffer[fixedBufferUsedSize] == '\0';
          growableBuffer := fixedBuffer[..fixedBufferUsedSize];
        }
        growableBuffer := growableBuffer + [c];
      }
    }

    method Clear()
      requires Valid()
      modifies this
      ensures Valid() && Line() == []
    {
      fixedBufferUsedSize := 0;
      growableBuffer := [];
    }

    /** Reads one line, whatever buffer it ends up in; fails only at the end of the stream. */
    method GetLine() returns (ok: bool)
      requires Valid() && strm.Valid()
      modifies this, fixedBuffer, strm
      ensures Valid() && strm.Valid()
      ensures ok == (old(strm.Rest()) != [])
      ensures ok ==> Line() == LineOf(old(strm.Rest())) && strm.Rest() == AfterLine(old(strm.Rest()))
      ensures !ok ==> strm.Rest() == []
    {
      hide LineOf;
      Clear();
      ghost var all := strm.Rest();
      assert all[0..] == all && [] + LineOf(all) == LineOf(all);
      var i := 0;
      while true
        invariant Valid() && strm.Valid() && i == |Line()| <= |all|
        invariant strm.Rest() == all[i..] && LineOf(all) == Line() + LineOf(all[i..])
        decreases |all| - i
      {
        var buf := strm.Read(1);
        if buf == [] {
          LineEnd(all, i, Line());
          return i != 0;
        }
        var byte := buf[0];
        LineStep(all, i, byte, Line());
        Append(byte);
        i := i + 1;
        if byte == '\n' {
          return true;
        }
      }
    }
  }

  // ----- reading

  /** How a read ends: the verdict, the bytes handed to the receiver, and what is left of the stream. */
  datatype Outcome = Outcome(ok: bool, payload: Bytes, rest: Bytes)

  /** How one round of the loop ends: the bytes of a chunk, its end of line, and the next size line. */
  datatype RoundKind = Failed | Stopped | Next

  datatype Round = Round(kind: RoundKind, payload: Bytes, line: Bytes, rest: Bytes)

  ghost function RoundOf(rest: Bytes, len: nat): (r: Round)
    requires len > 0
    ensures r.kind == Next ==> |r.rest| < |rest|
  {
    if |rest| < len then Round(Failed, rest, [], [])
    else
      var payload, after := rest[..len], rest[len..];
      if after == [] then Round(Failed, payload, [], [])
      else if CStr(LineOf(after)) != CRLF then Round(Stopped, payload, LineOf(after), AfterLine(after))
      else if AfterLine(after) == [] then Round(Failed, payload, [], [])
      else Round(Next, payload, LineOf(AfterLine(after)), AfterLine(AfterLine(after)))
  }

  function Prefixed(payload: Bytes, o: Outcome): Outcome { Outcome(o.ok, payload + o.payload, o.rest) }

  /** The verdict on a stream whose current line is `line`, independently of how reads are cut. */
  ghost function ReadChunks(line: Bytes, rest: Bytes): Outcome
    decreases |rest|
  {
    var (len, end) := Strtoul16(CStr(line));
    if end == 0 || len == ULONG_MAX then Outcome(false, [], rest)
    else if len == 0 then Outcome(rest != [] && CStr(LineOf(rest)) == CRLF, [], AfterLine(rest))
    else
      var r := RoundOf(rest, len);
      match r.kind
      case Failed => Outcome(false, r.payload, r.rest)
      case Stopped => Outcome(true, r.payload, r.rest)
      case Next => Prefixed(r.payload, ReadChunks(r.line, r.rest))
  }

  /** The bytes delivered before a round are a prefix of the final payload. */
  lemma RoundStep(line: Bytes, rest: Bytes, given: Bytes)
    ensures var (len, end) := Strtoul16(CStr(line));
            && (end != 0 && len != ULONG_MAX && len != 0 ==>
                  var r := RoundOf(rest, len);
                  Prefixed(given, ReadChunks(line, rest))
                  == match r.kind
                     case Failed => Outcome(false, given + r.payload, r.rest)
                     case Stopped => Outcome(true, given + r.payload, r.rest)
                     case Next => Prefixed(given + r.payload, ReadChunks(r.line, r.rest)))
            && (end == 0 || len == ULONG_MAX ==> Prefixed(given, ReadChunks(line, rest)) == Outcome(false, given, rest))
            && (end != 0 && len == 0 ==>
                  Prefixed(given, ReadChunks(line, rest))
                  == Outcome(rest != [] && CStr(LineOf(rest)) == CRLF, given, AfterLine(rest)))
  {
    var (len, end) := Strtoul16(CStr(line));
    if end != 0 && len != ULONG_MAX && len != 0 {
      var r := RoundOf(rest, len);
      if r.kind == Next {
        Assoc(given, r.payload, ReadChunks(r.line, r.rest).payload);
      }
    }
  }

  ghost function ReadAll(s: Bytes): Outcome {
    if s == [] then Outcome(false, [], []) else ReadChunks(LineOf(s), AfterLine(s))
  }

  /** Reads exactly len bytes in whatever pieces the stream returns them, or all that is left and fails. */
  method ReadContentWithLength(strm: Stream, len: nat, given: Bytes) returns (ok: bool, payload: Bytes)
    requires strm.Valid()
    modifies strm
    ensures strm.Valid()
    ensures ok == (len <= |old(strm.Rest())|)
    ensures payload == given + old(strm.Rest())[..if ok then len else |old(strm.Rest())|]
    ensures strm.Rest() == old(strm.Rest())[if ok then len else |old(strm.Rest())|..]
  {
    ghost var all := strm.Rest();
    payload := given;
    var r := 0;
    while r < len
      invariant strm.Valid() && r <= len && r <= |all|
      invariant payload == given + all[..r] && strm.Rest() == all[r..]
    {
      var readLen := len - r;
      var buf := strm.Read(if readLen < RECV_BUFSIZ then readLen else RECV_BUFSIZ);
      if buf == [] {
        assert all[r..] == [];
        return false, payload;
      }
      assert all[r..] == buf + strm.Rest();
      assert all[..r + |buf|] == all[..r] + buf;
      payload := payload + buf;
      r := r + |buf|;
    }
    ok := true;
  }

  /** One round of the loop. */
  method ReadOneChunk(reader: StreamLineReader, len: nat, given: Bytes) returns (kind: RoundKind, payload: Bytes)
    requires reader.Valid() && reader.strm.Valid() && len > 0
    modifies reader, reader.fixedBuffer, reader.strm
    ensures reader.Valid() && reader.strm.Valid()
    ensures var r := RoundOf(old(reader.strm.Rest()), len);
            && kind == r.kind && payload == given + r.payload && reader.strm.Rest() == r.rest
            && (kind == Next ==> reader.Line() == r.line)
  {
    hide LineOf, CStr, AfterLine;
    ghost var rest := reader.strm.Rest();
    var ok;
    ok, payload := ReadContentWithLength(reader.strm, len, given);
    if !ok {
      assert rest[..|rest|] == rest;
      return Failed, payload;
    }
    ok := reader.GetLine();
    if !ok {
      return Failed, payload;
    }
    if CStr(reader.Line()) != CRLF {
      return Stopped, payload;
    }
    ok := reader.GetLine();
    if !ok {
      return Failed, payload;
    }
    kind := Next;
  }

  /** The body of the reading loop. */
  method HandleSizeLine(reader: StreamLineReader, given: Bytes) returns (more: bool, ok: bool, payload: Bytes)
    requires reader.Valid() && reader.strm.Valid()
    modifies reader, reader.fixedBuffer, reader.strm
    ensures reader.Valid() && reader.strm.Valid()
    ensures more ==> |reader.strm.Rest()| < |old(reader.strm.Rest())|
    ensures Prefixed(given, old(ReadChunks(reader.Line(), reader.strm.Rest())))
         == if more then Prefixed(payload, ReadChunks(reader.Line(), reader.strm.Rest()))
            else Outcome(ok, payload, reader.strm.Rest())
  {
    hide ReadChunks, RoundOf, Strtoul16, LineOf, CStr, AfterLine;
    RoundStep(reader.Line(), reader.strm.Rest(), given);
    var (chunkLen, end) := Strtoul16(CStr(reader.Line()));
    payload := given;
    if end == 0 || chunkLen == ULONG_MAX {
      return false, false, payload;
    }
    if chunkLen == 0 {
      EmptyRest();
      ok := reader.GetLine();
      ok := ok && CStr(reader.Line()) == CRLF;
      return false, ok, payload;
    }
    var kind;
    kind, payload := ReadOneChunk(reader, chunkLen, payload);
    more, ok := kind == Next, kind == Stopped;
  }

  lemma EmptyRest()
    ensures AfterLine([]) == []
  {}

  /** The reading loop: its verdict and payload do not depend on how the stream cuts its reads. */
  method ReadContentChunked(strm: Stream) returns (ok: bool, payload: Bytes)
    requires strm.Valid()
    modifies strm
    ensures strm.Valid()
    ensures Outcome(ok, payload, strm.Rest()) == ReadAll(old(strm.Rest()))
  {
    hide ReadChunks, LineOf, AfterLine;
    payload := [];
    ghost var outcome := ReadAll(strm.Rest());
    var reader := new StreamLineReader(strm, 16);
    ok := reader.GetLine();
    if !ok {
      return;
    }
    var more := true;
    while more
      invariant reader.Valid() && strm.Valid() && reader.strm == strm && fresh(reader) && fresh(reader.fixedBuffer)
      invariant outcome == if more then Prefixed(payload, ReadChunks(reader.Line(), strm.Rest()))
                           else Outcome(ok, payload, strm.Rest())
      decreases more, |strm.Rest()|
    {
      more, ok, payload := HandleSizeLine(reader, payload);
    }
  }

  // ----- writing

  ghost function Chunk(payload: Bytes): Bytes { Hex(|payload|) + CRLF + payload + CRLF }

  const DONE_MARKER: Bytes := "0\r\n\r\n"

  /** A writer may accept any positive part of what it is given. */
  method WriteData(out: Bytes, d: Bytes) returns (out': Bytes)
    ensures out' == out + d
  {
    out' := out;
    var offset := 0;
    while offset < |d|
      invariant offset <= |d| && out' == out + d[..offset]
    {
      var length: nat :| 1 <= length && offset + length <= |d|;
      out' := out' + d[offset..offset + length];
      offset := offset + length;
    }
  }

  /** The sink that a content provider writes to, with the compressor that passes data through. */
  class DataSink {
    var out: Bytes
    var offset: nat
    var dataAvailable: bool

    constructor ()
      ensures out == [] && offset == 0 && dataAvailable
    {
      out, offset, dataAvailable := [], 0, true;
    }

    method Write(d: Bytes)
      modifies this
      ensures out == old(out) + (if d == [] then [] else Chunk(d))
      ensures dataAvailable == (d != []) && offset == old(offset) + |d|
    {
      dataAvailable := |d| > 0;
      offset := offset + |d|;
      if d != [] {
        var size := FromIToHex(|d|);
        var emitted := WriteData(out, size + "\r\n" + d + "\r\n");
        out := emitted;
      }
    }

    method Done()
      modifies this
      ensures out == old(out) + DONE_MARKER && !dataAvailable && offset == old(offset)
    {
      dataAvailable := false;
      var emitted := WriteData(out, DONE_MARKER);
      out := emitted;
    }
  }

  /** One call of the content provider: the writes it makes, and whether it then reports the end. */
  datatype Call = Call(writes: seq<Bytes>, done: bool)

  ghost function WritesOut(writes: seq<Bytes>): Bytes {
    if writes == [] then []
    else WritesOut(writes[..|writes| - 1]) + (if writes[|writes| - 1] == [] then [] else Chunk(writes[|writes| - 1]))
  }

  /** Whether the loop goes on after a call: the last write of the call decides, unless it was the end. */
  predicate GoesOn(call: Call) {
    !call.done && (call.writes != [] ==> call.writes[|call.writes| - 1] != [])
  }

  ghost function CallOut(call: Call): Bytes {
    WritesOut(call.writes) + (if call.done then DONE_MARKER else [])
  }

  /** What the loop emits; false when the provider has no more calls to offer. */
  ghost function Emit(calls: seq<Call>): (bool, Bytes) {
    if calls == [] then (false, [])
    else if !GoesOn(calls[0]) then (true, CallOut(calls[0]))
    else var rest := Emit(calls[1..]); (rest.0, CallOut(calls[0]) + rest.1)
  }

  method RunCall(sink: DataSink, call: Call)
    requires sink.dataAvailable
    modifies sink
    ensures sink.out == old(sink.out) + CallOut(call)
    ensures sink.dataAvailable == GoesOn(call)
  {
    hide Chunk;
    for k := 0 to |call.writes|
      invariant sink.out == old(sink.out) + WritesOut(call.writes[..k])
      invariant sink.dataAvailable == (k > 0 ==> call.writes[k - 1] != [])
    {
      assert call.writes[..k + 1][..k] == call.writes[..k];
      Assoc(old(sink.out), WritesOut(call.writes[..k]), if call.writes[k] == [] then [] else Chunk(call.writes[k]));
      sink.Write(call.writes[k]);
    }
    assert call.writes[..|call.writes|] == call.writes;
    Assoc(old(sink.out), WritesOut(call.writes), DONE_MARKER);
    if call.done {
      sink.Done();
    } else {
      assert WritesOut(call.writes) + [] == WritesOut(call.writes);
    }
  }

  method WriteContentChunked(calls: seq<Call>) returns (ok: bool, out: Bytes)
    ensures (ok, out) == Emit(calls)
  {
    hide CallOut, GoesOn;
    var sink := new DataSink();
    var k := 0;
    assert calls[0..] == calls && [] + Emit(calls).1 == Emit(calls).1;
    while sink.dataAvailable
      invariant k <= |calls| && fresh(sink)
      invariant sink.dataAvailable ==> Emit(calls) == (Emit(calls[k..]).0, sink.out + Emit(calls[k..]).1)
      invariant !sink.dataAvailable ==> Emit(calls) == (true, sink.out)
      decreases sink.dataAvailable, |calls| - k
    {
      if k == |calls| {
        assert calls[k..] == [] && sink.out + [] == sink.out;
        return false, sink.out;
      }
      assert calls[k..][1..] == calls[k + 1..];
      Assoc(sink.out, CallOut(calls[k]), Emit(calls[k + 1..]).1);
      RunCall(sink, calls[k]);
      k := k + 1;
    }
    return true, sink.out;
  }

  // ----- the round trip

  lemma {:induction false} LineUpTo(h: Bytes, t: Bytes)
    requires forall k :: 0 <= k < |h| ==> h[k] != '\n'
    ensures LineOf(h + ("\n" + t)) == h + "\n" && AfterLine(h + ("\n" + t)) == t
  {
    var s := h + ("\n" + t);
    if h == [] {
      assert s == "\n" + t;
    } else {
      assert s[1..] == h[1..] + ("\n" + t);
      LineUpTo(h[1..], t);
      assert [s[0]] + (h[1..] + "\n") == h + "\n";
    }
    assert s[|h| + 1..] == t;
  }

  lemma {:induction false} CStrWhole(s: Bytes)
    requires forall k :: 0 <= k < |s| ==> s[k] != '\0'
    ensures CStr(s) == s
  {
    if s != [] {
      CStrWhole(s[1..]);
    }
  }

  lemma CrlfLine(t: Bytes)
    ensures LineOf(CRLF + t) == CRLF && AfterLine(CRLF + t) == t && CStr(CRLF) == CRLF
  {
    LineUpTo("\r", t);
    assert CRLF + t == "\r" + ("\n" + t);
    CStrWhole(CRLF);
  }

  lemma SizeLine(n: nat, t: Bytes)
    requires n < ULONG_MAX
    ensures var s := Hex(n) + CRLF + t;
            LineOf(s) == Hex(n) + CRLF && AfterLine(s) == t && CStr(LineOf(s)) == LineOf(s)
    ensures Strtoul16(Hex(n) + CRLF) == (n, |Hex(n)|)
  {
    hide Strtoul16, LineOf, CStr, Hex;
    HexRoundTrip(n);
    HexNoNul(n);
    LineBehind(Hex(n), t);
  }

  lemma LineBehind(h: Bytes, t: Bytes)
    requires forall k :: 0 <= k < |h| ==> h[k] != '\0' && h[k] != '\n'
    ensures var s := h + CRLF + t; LineOf(s) == h + CRLF && AfterLine(s) == t && CStr(LineOf(s)) == LineOf(s)
  {
    hide LineOf, CStr;
    CrlfBehind(h, t);
    LineUpTo(h + "\r", t);
    CStrWhole(h + CRLF);
  }

  lemma HexNoNul(n: nat)
    ensures forall k :: 0 <= k < |Hex(n)| ==> Hex(n)[k] != '\0' && Hex(n)[k] != '\n'
  {
    hide Hex;
    HexSpells(n);
  }

  lemma CrlfBehind(h: Bytes, t: Bytes)
    ensures h + CRLF + t == (h + "\r") + ("\n" + t) && (h + "\r") + "\n" == h + CRLF
  {
    assert CRLF == "\r" + "\n";
    Assoc(h, "\r", "\n");
    Assoc(h + "\r", "\n", t);
  }

  /** A chunk followed by more is read as its payload followed by the reading of the rest. */
  lemma ChunkRead(w: Bytes, t: Bytes)
    requires 0 < |w| < ULONG_MAX
    ensures t != [] ==> ReadAll(Chunk(w) + t) == Prefixed(w, ReadAll(t))
    ensures t == [] ==> !ReadAll(Chunk(w) + t).ok
  {
    hide Strtoul16, LineOf, CStr;
    var s, body := Chunk(w) + t, w + (CRLF + t);
    assert s == Hex(|w|) + CRLF + body;
    assert ReadAll(s) == ReadChunks(LineOf(s), AfterLine(s));
    SizeLine(|w|, body);
    PayloadRead(Hex(|w|) + CRLF, w, t);
  }

  /** Behind its size line a payload is delivered in whole, and reading goes on behind its line end. */
  lemma PayloadRead(line: Bytes, w: Bytes, t: Bytes)
    requires CStr(line) == line && w != [] && |w| < ULONG_MAX
    requires Strtoul16(line).0 == |w| && Strtoul16(line).1 > 0
    ensures t != [] ==> ReadChunks(line, w + (CRLF + t)) == Prefixed(w, ReadAll(t))
    ensures t == [] ==> !ReadChunks(line, w + (CRLF + t)).ok
  {
    hide Strtoul16, LineOf, AfterLine, CStr;
    CrlfLine(t);
    var body := w + (CRLF + t);
    assert body[..|w|] == w && body[|w|..] == CRLF + t;
  }

  lemma DoneRead(t: Bytes)
    ensures ReadAll(DONE_MARKER + t) == Outcome(true, [], t)
  {
    hide Strtoul16, LineOf, CStr;
    assert Hex(0) == "0";
    assert DONE_MARKER + t == Hex(0) + CRLF + (CRLF + t);
    SizeLine(0, CRLF + t);
    CrlfLine(t);
  }

  // ----- what is not well-formed

  /** A stream that ends inside a chunk is refused, after what there was has been delivered. */
  lemma ShortChunk(n: nat, w: Bytes)
    requires |w| < n < ULONG_MAX
    ensures ReadAll(Hex(n) + CRLF + w) == Outcome(false, w, [])
  {
    hide Strtoul16, LineOf, CStr, Hex;
    SizeLine(n, w);
    assert Hex(n) + CRLF + w != [];
  }

  /** A chunk without its line end stops the reading, and what came before counts as everything. */
  lemma BadChunkEnd(w: Bytes, t: Bytes)
    requires 0 < |w| < ULONG_MAX && t != [] && CStr(LineOf(t)) != CRLF
    ensures ReadAll(Hex(|w|) + CRLF + (w + t)) == Outcome(true, w, AfterLine(t))
  {
    hide Strtoul16, LineOf, AfterLine, CStr, Hex;
    SizeLine(|w|, w + t);
    assert Hex(|w|) + CRLF + (w + t) != [];
    assert (w + t)[..|w|] == w && (w + t)[|w|..] == t;
  }

  /** The end marker without its second line end is refused. */
  lemma BadEnd(t: Bytes)
    requires t == [] || CStr(LineOf(t)) != CRLF
    ensures !ReadAll("0" + CRLF + t).ok
  {
    hide Strtoul16, LineOf, AfterLine, CStr;
    assert Hex(0) == "0";
    SizeLine(0, t);
  }

  ghost predicate Sendable(writes: seq<Bytes>) { forall k :: 0 <= k < |writes| ==> |writes[k]| < ULONG_MAX }

  lemma FlattenLast(writes: seq<Bytes>)
    requires writes != []
    ensures var n := |writes| - 1; Flatten(writes) == Flatten(writes[..n]) + writes[n]
  {
    var n := |writes| - 1;
    assert writes == writes[..n] + [writes[n]];
    FlattenAppend(writes[..n], [writes[n]]);
    assert Flatten([writes[n]]) == writes[n] + Flatten([]);
  }

  lemma {:induction false} WritesRead(writes: seq<Bytes>, t: Bytes)
    requires Sendable(writes)
    ensures t != [] ==> ReadAll(WritesOut(writes) + t) == Prefixed(Flatten(writes), ReadAll(t))
    ensures t == [] ==> !ReadAll(WritesOut(writes) + t).ok
  {
    hide ReadAll, Chunk;
    if writes == [] {
      assert WritesOut(writes) + t == t;
      NothingToRead();
    } else {
      var n := |writes| - 1;
      var w := writes[n];
      var x := if w == [] then [] else Chunk(w);
      WritesRead(writes[..n], x + t);
      Assoc(WritesOut(writes[..n]), x, t);
      assert WritesOut(writes) + t == WritesOut(writes[..n]) + (x + t);
      FlattenLast(writes);
      if w == [] {
        assert x + t == t;
      } else {
        ChunkNotEmpty(w);
        ChunkRead(w, t);
        Assoc(Flatten(writes[..n]), w, ReadAll(t).payload);
      }
    }
  }

  lemma NothingToRead()
    ensures !ReadAll([]).ok
  {}

  lemma ChunkNotEmpty(w: Bytes)
    ensures Chunk(w) != []
  {}

  /** A provider that reports the end in its last call, and only there. */
  ghost predicate EndsOnce(calls: seq<Call>) {
    calls != [] && forall k :: 0 <= k < |calls| ==> Sendable(calls[k].writes) && (calls[k].done <==> k == |calls| - 1)
  }

  ghost function AllWrites(calls: seq<Call>): Bytes {
    if calls == [] then [] else Flatten(calls[0].writes) + AllWrites(calls[1..])
  }

  /** No call before the last ends with an empty write. */
  ghost predicate NeverStalls(calls: seq<Call>) { forall k :: 0 <= k < |calls| - 1 ==> GoesOn(calls[k]) }

  lemma {:induction false} EmittedReads(calls: seq<Call>, t: Bytes)
    requires EndsOnce(calls)
    ensures Emit(calls).0
    ensures NeverStalls(calls) ==> ReadAll(Emit(calls).1 + t) == Outcome(true, AllWrites(calls), t)
    ensures !NeverStalls(calls) ==> !ReadAll(Emit(calls).1).ok
  {
    hide ReadAll, WritesOut;
    var call, out := calls[0], CallOut(calls[0]);
    if |calls| == 1 {
      Assoc(WritesOut(call.writes), DONE_MARKER, t);
      WritesRead(call.writes, DONE_MARKER + t);
      DoneRead(t);
      assert calls[1..] == [];
      assert Flatten(call.writes) + [] == Flatten(call.writes);
    } else if GoesOn(call) {
      var rest := calls[1..];
      assert NeverStalls(calls) <==> NeverStalls(rest) by {
        assert forall k :: 0 < k < |calls| ==> calls[k] == rest[k - 1];
      }
      EmittedReads(rest, t);
      NothingToRead();
      assert out == WritesOut(call.writes) + [] == WritesOut(call.writes);
      Assoc(out, Emit(rest).1, t);
      WritesRead(call.writes, Emit(rest).1 + t);
      WritesRead(call.writes, Emit(rest).1);
    } else {
      assert out == WritesOut(call.writes) + [] == WritesOut(call.writes);
      WritesRead(call.writes, []);
    }
  }

  /** With the end reported once and last, the receiver gets exactly the payload unless an earlier call stalls. */
  lemma ChunkedRoundTrip(calls: seq<Call>)
    requires EndsOnce(calls)
    ensures ReadAll(Emit(calls).1) == Outcome(true, AllWrites(calls), []) <==> NeverStalls(calls)
  {
    EmittedReads(calls, []);
    assert Emit(calls).1 + [] == Emit(calls).1;
  }

  /** An empty write ends the loop before the end marker. */
  lemma EmptyWriteStalls()
    ensures var calls := [Call([[]], false), Call([], true)];
            EndsOnce(calls) && ReadAll(Emit(calls).1) != Outcome(true, AllWrites(calls), [])
  {
    hide ReadAll;
    var calls := [Call([[]], false), Call([], true)];
    assert !GoesOn(calls[0]);
    ChunkedRoundTrip(calls);
  }

  /** What one chunk of three bytes and the end look like on the wire. */
  lemma WireExample()
    ensures Emit([Call(["abc"], false), Call([], true)]).1 == "3\r\nabc\r\n0\r\n\r\n"
  {
    hide Chunk;
    var first, last := Call(["abc"], false), Call([], true);
    var calls := [first, last];
    assert calls[1..] == [last] && first.writes[..0] == [];
    ChunkExample();
    assert WritesOut([]) == [];
    assert CallOut(first) == "3\r\nabc\r\n";
    assert CallOut(last) == "0\r\n\r\n";
    assert Emit([last]).1 == "0\r\n\r\n";
  }

  lemma ChunkExample()
    ensures Chunk("abc") == "3\r\nabc\r\n"
  {
    assert Hex(3) == "3";
  }

  /** A size of two digits, printed in small letters and read in any. */
  lemma SizeExample()
    ensures Hex(255) == "ff" && Strtoul16("fF\r\n").0 == 255
  {
    hide Strtoul16;
    assert Hex(255 / 16) == "f";
    assert "fF"[..1] == "f" && "f"[..0] == "" && Spelled("f") == 15 && Spelled("fF") == 255;
    PlainDigits("fF");
    assert "fF" + "\r\n" == "fF\r\n";
  }
}
