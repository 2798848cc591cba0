/**
 Query strings in httplib.h (section 2.1 of RFC 3986): the printer that Post and the client use for
 parameters, and the parser. Text is a sequence of bytes, written as characters below 0x100.
 */
module QueryString {
  import opened Text
  import opened Wrappers

  /** A parameter. A list of them is a multimap in the order of iteration, or of insertion. */
  type Param = (string, string)

  const NUL: char := '\0'

  predicate Bytes(s: string) { forall k :: 0 <= k < |s| ==> s[k] as int < 0x100 }

  // ----- hexadecimal escapes

  predicate HexPrefix(s: string, n: nat) { n == 0 || (s != "" && IsHex(s[0]) && HexPrefix(s[1..], n - 1)) }

  function Spelled(s: string, n: nat, val: nat): nat
    requires HexPrefix(s, n)
  {
    if n == 0 then val else Spelled(s[1..], n - 1, val * 16 + HexValue(s[0]))
  }

  lemma {:induction false} SpelledBound(s: string, n: nat, val: nat, m: nat)
    requires HexPrefix(s, n) && val < m
    ensures n == 0 ==> Spelled(s, n, val) < m
    ensures n == 1 ==> Spelled(s, n, val) < m * 0x10
    ensures n == 2 ==> Spelled(s, n, val) < m * 0x100
    ensures n == 3 ==> Spelled(s, n, val) < m * 0x1000
    ensures n == 4 ==> Spelled(s, n, val) < m * 0x10000
  {
    if 0 < n <= 4 {
      SpelledBound(s[1..], n - 1, val * 16 + HexValue(s[0]), m * 16);
    }
  }

  /** The bytes of a code point below 0x10000; surrogates have none. */
  function ToUtf8(code: nat): (s: string)
    requires code < 0x10000
    ensures |s| <= 3
  {
    if code < 0x80 then [code as char]
    else if code < 0x800 then [(0xC0 + code / 64) as char, (0x80 + code % 64) as char]
    else if 0xD800 <= code < 0xE000 then ""
    else [(0xE0 + code / 4096) as char, (0x80 + code / 64 % 64) as char, (0x80 + code % 64) as char]
  }

  /** A percent sign that starts an escape: two hexadecimal digits, or u and four. */
  predicate Escape(s: string) {
    && |s| > 1 && s[0] == '%'
    && (if s[1] == 'u' then HexPrefix(s[2..], 4) else HexPrefix(s[1..], 2))
  }

  lemma {:induction false} HexPrefixLength(s: string, n: nat)
    requires HexPrefix(s, n)
    ensures n <= |s|
  {
    if n > 0 {
      HexPrefixLength(s[1..], n - 1);
    }
  }

  function EscapeLength(s: string): (n: nat)
    requires Escape(s)
    ensures 3 <= n <= 6 && n <= |s|
  {
    if s[1] == 'u' then
      HexPrefixLength(s[2..], 4);
      6
    else
      HexPrefixLength(s[1..], 2);
      3
  }

  function Escaped(s: string): (r: string)
    requires Escape(s)
    ensures |r| < EscapeLength(s)
  {
    if s[1] == 'u' then
      SpelledBound(s[2..], 4, 0, 1);
      ToUtf8(Spelled(s[2..], 4, 0))
    else
      SpelledBound(s[1..], 2, 0, 1);
      [Spelled(s[1..], 2, 0) as char]
  }

  /** decode_url with plus signs turned into spaces. */
  function Decode(s: string): string
    decreases |s|
  {
    if s == "" then ""
    else if Escape(s) then Escaped(s) + Decode(s[EscapeLength(s)..])
    else [if s[0] == '+' then ' ' else s[0]] + Decode(s[1..])
  }

  const UPPER_HEX: string := "0123456789ABCDEF"

  function PercentCode(c: char): string {
    ['%', UPPER_HEX[c as int / 16 % 16], UPPER_HEX[c as int % 16]]
  }

  /** The bytes that encode_url does not leave as they are. */
  predicate Special(c: char) { c in {' ', '+', '\r', '\n', '\'', ',', ';'} || c as int >= 0x80 }

  /** encode_url, which stops at a NUL. */
  function Encode(s: string): string {
    if s == "" || s[0] == NUL then ""
    else (if Special(s[0]) then PercentCode(s[0]) else [s[0]]) + Encode(s[1..])
  }

  /** Whatever is encoded, no byte from 0x80 up, NUL, blank, plus sign, line end, quote, comma or semicolon is left. */
  lemma {:induction false} EncodeEmits(s: string)
    ensures forall k :: 0 <= k < |Encode(s)| ==>
              0 < Encode(s)[k] as int < 0x80 && Encode(s)[k] !in {' ', '+', '\r', '\n', '\'', ',', ';'}
  {
    hide PercentCode;
    if s != "" && s[0] != NUL {
      EncodeEmits(s[1..]);
      CodeEmits(s[0]);
    }
  }

  lemma CodeEmits(c: char)
    ensures var code := PercentCode(c);
            forall k :: 0 <= k < |code| ==>
              0 < code[k] as int < 0x80 && code[k] !in {' ', '+', '\r', '\n', '\'', ',', ';'}
  {
    HexPlain(c as int / 16 % 16);
    HexPlain(c as int % 16);
  }

  lemma HexPlain(d: nat)
    requires d < 16
    ensures '0' <= UPPER_HEX[d] <= '9' || 'A' <= UPPER_HEX[d] <= 'F'
  {}

  /** Only these bytes are escaped, and each as a percent sign and its two capital hexadecimal digits. */
  lemma EncodeOne(c: char)
    requires 0 < c as int < 0x100
    ensures Encode([c]) == [c] <==> c as int < 0x80 && c !in {' ', '+', '\r', '\n', '\'', ',', ';'}
    ensures Encode([c]) != [c] ==>
              && |Encode([c])| == 3 && Encode([c])[0] == '%'
              && 16 * HexValue(Encode([c])[1]) + HexValue(Encode([c])[2]) == c as int
              && !('a' <= Encode([c])[1] <= 'f') && !('a' <= Encode([c])[2] <= 'f')
  {
    hide Encode, PercentCode, HexValue;
    EncodedOne(c);
    CodeSpells(c);
  }

  lemma CodeSpells(c: char)
    requires c as int < 0x100
    ensures var code := PercentCode(c);
            && |code| == 3 && code[0] == '%'
            && 16 * HexValue(code[1]) + HexValue(code[2]) == c as int
            && !('a' <= code[1] <= 'f') && !('a' <= code[2] <= 'f')
  {
    hide HexValue;
    HexPlain(c as int / 16 % 16);
    HexPlain(c as int % 16);
    HexOfDigit(c as int / 16 % 16);
    HexOfDigit(c as int % 16);
  }

  lemma HexOfDigit(d: nat)
    requires d < 16
    ensures HexValue(UPPER_HEX[d]) == d
  {}

  // ----- splitting

  function Keep(s: string): seq<string> { if s == "" then [] else [s] }

  /** The trimmed pieces between the delimiters that are not empty. */
  function Pieces(s: string, d: char): seq<string>
    decreases |s|
  {
    var i := IndexOf(s, d);
    if i == |s| then Keep(TrimCopy(s)) else Keep(TrimCopy(s[..i])) + Pieces(s[i + 1..], d)
  }

  // ----- the printer and the parser

  function Print(params: seq<Param>): string {
    if params == [] then ""
    else
      params[0].0 + ("=" + (Encode(params[0].1) + (if |params| == 1 then "" else "&" + Print(params[1..]))))
  }

  /** The first piece is the key and the last of the others the value. */
  function ParseFields(fields: seq<string>): seq<Param> {
    if fields == [] then []
    else [(Decode(fields[0]), Decode(if |fields| > 1 then fields[|fields| - 1] else ""))]
  }

  function ParsePieces(pieces: seq<string>): seq<Param> {
    if pieces == [] then [] else ParseFields(Pieces(pieces[0], '=')) + ParsePieces(pieces[1..])
  }

  function Parse(s: string): seq<Param> { ParsePieces(Pieces(s, '&')) }

  // ----- what decoding loses

  /** A character that no escape goes past. */
  predicate Stopper(c: char) { !IsHex(c) && c != 'u' }

  lemma {:induction false} HexPrefixLocal(a: string, t: string, n: nat)
    requires t == "" || Stopper(t[0])
    ensures HexPrefix(a + t, n) <==> HexPrefix(a, n)
    ensures HexPrefix(a, n) ==> forall val :: Spelled(a + t, n, val) == Spelled(a, n, val)
    decreases n
  {
    if n > 0 {
      if a == "" {
        assert a + t == t;
      } else {
        assert (a + t)[1..] == a[1..] + t;
        HexPrefixLocal(a[1..], t, n - 1);
      }
    }
  }

  lemma EscapeLocal(a: string, t: string)
    requires a != "" && (t == "" || Stopper(t[0]))
    ensures Escape(a + t) <==> Escape(a)
    ensures Escape(a) ==> Escaped(a + t) == Escaped(a) && EscapeLength(a + t) == EscapeLength(a)
  {
    assert (a + t)[1..] == a[1..] + t;
    HexPrefixLocal(a[1..], t, 2);
    if |a| > 1 {
      assert (a + t)[2..] == a[2..] + t;
      HexPrefixLocal(a[2..], t, 4);
    }
  }

  /** The first decoded unit, and how much of the text it takes. */
  function FirstUnit(s: string): string
    requires s != ""
  {
    if Escape(s) then Escaped(s) else [if s[0] == '+' then ' ' else s[0]]
  }

  function FirstLength(s: string): (n: nat)
    requires s != ""
    ensures 0 < n <= |s|
  {
    if Escape(s) then EscapeLength(s) else 1
  }

  lemma DecodeFirst(s: string)
    requires s != ""
    ensures Decode(s) == FirstUnit(s) + Decode(s[FirstLength(s)..])
  {}

  lemma FirstLocal(a: string, t: string)
    requires a != "" && (t == "" || Stopper(t[0]))
    ensures FirstUnit(a + t) == FirstUnit(a) && FirstLength(a + t) == FirstLength(a)
    ensures (a + t)[FirstLength(a)..] == a[FirstLength(a)..] + t
  {
    hide Escape, Escaped, EscapeLength, Stopper;
    EscapeLocal(a, t);
  }

  lemma {:induction false} DecodeSum(a: string, t: string)
    requires t == "" || Stopper(t[0])
    ensures Decode(a + t) == Decode(a) + Decode(t)
    decreases |a|
  {
    hide Decode, Escape, Stopper, FirstUnit;
    if a == "" {
      NothingDecoded(a, t);
    } else {
      var rest := a[FirstLength(a)..];
      DecodeSum(rest, t);
      DecodeSumFirst(a, t);
    }
  }

  lemma NothingDecoded(a: string, t: string)
    requires a == ""
    ensures Decode(a + t) == Decode(a) + Decode(t)
  {
    assert a + t == t;
  }

  lemma DecodeSumFirst(a: string, t: string)
    requires a != "" && (t == "" || Stopper(t[0]))
    requires var rest := a[FirstLength(a)..]; Decode(rest + t) == Decode(rest) + Decode(t)
    ensures Decode(a + t) == Decode(a) + Decode(t)
  {
    hide Escape, FirstUnit, FirstLength, Decode, Stopper;
    var first, rest := FirstUnit(a), a[FirstLength(a)..];
    FirstLocal(a, t);
    DecodeFirst(a);
    DecodeFirst(a + t);
    Assoc(first, Decode(rest), Decode(t));
  }

  predicate EscapeFree(s: string) { forall k :: 0 <= k < |s| ==> !Escape(s[k..]) }

  lemma EscapeFreeTail(s: string)
    requires s != ""
    ensures EscapeFree(s) <==> !Escape(s) && EscapeFree(s[1..])
  {
    hide Escape;
    assert s[0..] == s;
    assert forall k :: 0 <= k < |s| - 1 ==> s[1..][k..] == s[k + 1..];
    assert forall k :: 0 < k < |s| ==> s[k..] == s[1..][k - 1..];
  }

  function PlusToSpace(s: string): (r: string)
    ensures |r| == |s|
    ensures r == s <==> '+' !in s
  {
    if s == "" then "" else [if s[0] == '+' then ' ' else s[0]] + PlusToSpace(s[1..])
  }

  /** Decoding shortens a text exactly when it holds an escape. */
  lemma {:induction false} DecodeRaw(s: string)
    ensures |Decode(s)| <= |s|
    ensures |Decode(s)| == |s| <==> EscapeFree(s)
    ensures EscapeFree(s) ==> Decode(s) == PlusToSpace(s)
    decreases |s|
  {
    hide Escape;
    if s != "" {
      EscapeFreeTail(s);
      if Escape(s) {
        DecodeRaw(s[EscapeLength(s)..]);
      } else {
        DecodeRaw(s[1..]);
      }
    }
  }

  lemma {:induction false} HexPrefixEncoded(s: string, n: nat)
    ensures HexPrefix(Encode(s), n) <==> HexPrefix(s, n)
    decreases n
  {
    if n > 0 && s != "" && s[0] != NUL {
      if !Special(s[0]) {
        assert Encode(s)[1..] == Encode(s[1..]);
        HexPrefixEncoded(s[1..], n - 1);
      }
    }
  }

  /** Encoding neither makes nor breaks an escape. */
  lemma EscapeEncoded(s: string)
    requires s != "" && s[0] == '%'
    ensures Escape(Encode(s)) <==> Escape(s)
  {
    var e := Encode(s[1..]);
    assert Encode(s)[1..] == e;
    HexPrefixEncoded(s[1..], 2);
    if |s| > 1 && s[1] == 'u' {
      assert e == ['u'] + Encode(s[2..]) by { assert s[1..][1..] == s[2..]; }
      assert Encode(s)[2..] == Encode(s[2..]);
      HexPrefixEncoded(s[2..], 4);
    }
  }

  lemma {:induction false} EncodeDrop(s: string, n: nat)
    requires n <= |s| && forall k :: 0 <= k < n ==> s[k] != NUL && !Special(s[k])
    ensures Encode(s) == s[..n] + Encode(s[n..])
    decreases n
  {
    if n > 0 {
      EncodeDrop(s[1..], n - 1);
      assert s[1..][n - 1..] == s[n..] && [s[0]] + s[1..][..n - 1] == s[..n];
      assert Encode(s) == [s[0]] + Encode(s[1..]);
      Assoc([s[0]], s[1..][..n - 1], Encode(s[n..]));
    } else {
      assert s[0..] == s;
    }
  }

  lemma {:induction false} HexPrefixPlain(s: string, n: nat)
    requires HexPrefix(s, n)
    ensures n <= |s| && forall k :: 0 <= k < n ==> s[k] != NUL && !Special(s[k])
    decreases n
  {
    if n > 0 {
      HexPrefixPlain(s[1..], n - 1);
      assert forall k :: 0 < k < n ==> s[k] == s[1..][k - 1];
    }
  }

  lemma EscapePlain(s: string)
    requires Escape(s)
    ensures forall k :: 0 <= k < EscapeLength(s) ==> s[k] != NUL && !Special(s[k])
  {
    if s[1] == 'u' {
      HexPrefixPlain(s[2..], 4);
      assert forall k :: 2 <= k < 6 ==> s[k] == s[2..][k - 2];
    } else {
      HexPrefixPlain(s[1..], 2);
      assert forall k :: 1 <= k < 3 ==> s[k] == s[1..][k - 1];
    }
  }

  /** One encoded byte is decoded by itself. */
  lemma PercentDecoded(c: char, t: string)
    requires c as int < 0x100
    ensures Decode(PercentCode(c) + t) == [c] + Decode(t)
  {
    hide HexPrefix, Spelled, HexValue, IsHex;
    var s, d1, d2 := PercentCode(c) + t, c as int / 16 % 16, c as int % 16;
    UpperHexValue(d1);
    UpperHexValue(d2);
    assert s[1..][0] == UPPER_HEX[d1] && s[1..][1] == UPPER_HEX[d2] && s[3..] == t;
    TwoDigits(s[1..]);
    assert d1 * 16 + d2 == c as int;
  }

  lemma UpperHexValue(d: nat)
    requires d < 16
    ensures HexValue(UPPER_HEX[d]) == d && UPPER_HEX[d] != 'u'
  {}

  lemma TwoDigits(s: string)
    requires |s| >= 2 && IsHex(s[0]) && IsHex(s[1])
    ensures HexPrefix(s, 2) && Spelled(s, 2, 0) == HexValue(s[0]) * 16 + HexValue(s[1])
  {
    assert s[1..][0] == s[1];
    assert HexPrefix(s[1..][1..], 0);
    assert HexPrefix(s[1..], 1);
    assert Spelled(s[1..], 1, HexValue(s[0])) == HexValue(s[0]) * 16 + HexValue(s[1]);
  }

  /** Encoding and decoding loses something exactly when there is a NUL or an escape. */
  lemma {:induction false} DecodeEncode(s: string)
    requires Bytes(s)
    ensures |Decode(Encode(s))| <= |s|
    ensures |Decode(Encode(s))| == |s| <==> EscapeFree(s) && NUL !in s
    ensures EscapeFree(s) && NUL !in s ==> Decode(Encode(s)) == s
    decreases |s|
  {
    if s != "" && s[0] != NUL {
      EscapeFreeTail(s);
      if Special(s[0]) {
        PercentDecoded(s[0], Encode(s[1..]));
        DecodeEncode(s[1..]);
      } else if Escape(s) {
        var n := EscapeLength(s);
        EscapePlain(s);
        EncodeDrop(s, n);
        EscapeEncoded(s);
        assert Encode(s)[n..] == Encode(s[n..]);
        DecodeEncode(s[n..]);
      } else {
        if s[0] == '%' {
          EscapeEncoded(s);
        }
        assert Encode(s)[1..] == Encode(s[1..]);
        DecodeEncode(s[1..]);
      }
    }
  }

  // ----- what parsing can deliver at most

  const SEPARATORS: set<char> := {'&', '='}

  function Count(s: string, d: set<char>): (n: nat) {
    if s == "" then 0 else (if s[0] in d then 1 else 0) + Count(s[1..], d)
  }

  lemma {:induction false} CountSum(a: string, b: string, d: set<char>)
    ensures Count(a + b, d) == Count(a, d) + Count(b, d)
  {
    if a == "" {
      assert a + b == b;
    } else {
      assert (a + b)[1..] == a[1..] + b;
      CountSum(a[1..], b, d);
    }
  }

  lemma {:induction false} CountAbsent(s: string, c: char, d: set<char>)
    requires c !in s
    ensures Count(s, d) == Count(s, d - {c})
  {
    if s != "" {
      CountAbsent(s[1..], c, d);
    }
  }

  lemma {:induction false} CountNone(s: string, d: set<char>)
    ensures Count(s, d) == 0 <==> forall c :: c in d ==> c !in s
  {
    if s != "" {
      CountNone(s[1..], d);
      assert forall c :: c in s <==> c == s[0] || c in s[1..];
    }
  }

  /** The decoded characters of a text, without its separators. */
  function Payload(s: string, d: set<char>): int { |Decode(s)| - Count(s, d) }

  lemma PayloadSum(a: string, t: string, d: set<char>)
    requires t == "" || Stopper(t[0])
    ensures Payload(a + t, d) == Payload(a, d) + Payload(t, d)
  {
    DecodeSum(a, t);
    CountSum(a, t, d);
  }

  lemma PayloadCons(c: char, t: string, d: set<char>)
    requires c != '%'
    ensures Payload([c] + t, d) == Payload(t, d) + if c in d then 0 else 1
  {
    assert ([c] + t)[1..] == t;
  }

  /** The sets of delimiters in use hold no blank. */
  predicate Delimiters(d: set<char>) { d <= SEPARATORS }

  lemma {:induction false} PayloadTrimLeft(s: string, d: set<char>)
    requires Delimiters(d)
    ensures Payload(s, d) == Payload(TrimLeft(s), d) + |s| - |TrimLeft(s)|
  {
    if s != "" && IsSpaceOrTab(s[0]) {
      assert s == [s[0]] + s[1..];
      PayloadCons(s[0], s[1..], d);
      PayloadTrimLeft(s[1..], d);
    }
  }

  lemma {:induction false} PayloadTrimRight(s: string, d: set<char>)
    requires Delimiters(d)
    ensures Payload(s, d) == Payload(TrimRight(s), d) + |s| - |TrimRight(s)|
  {
    if s != "" && IsSpaceOrTab(s[|s| - 1]) {
      var a, c := s[..|s| - 1], s[|s| - 1];
      assert s == a + [c] && [c] + "" == [c];
      PayloadSum(a, [c], d);
      PayloadCons(c, "", d);
      PayloadTrimRight(a, d);
    }
  }

  /** Trimming loses exactly the blanks it cuts off. */
  lemma PayloadTrim(s: string, d: set<char>)
    requires Delimiters(d)
    ensures Payload(s, d) == Payload(TrimCopy(s), d) + |s| - |TrimCopy(s)|
    ensures |TrimCopy(s)| <= |s|
  {
    hide Payload;
    PayloadTrimLeft(s, d);
    PayloadTrimRight(TrimLeft(s), d);
    TrimShorter(s);
    TrimShorter(TrimLeft(s));
  }

  lemma {:induction false} TrimShorter(s: string)
    ensures |TrimLeft(s)| <= |s| && |TrimRight(s)| <= |s|
    ensures forall c :: c in TrimLeft(s) || c in TrimRight(s) ==> c in s
    decreases |s|
  {
    if s != "" {
      TrimShorter(s[1..]);
      TrimShorter(s[..|s| - 1]);
    }
  }

  function PayloadAll(pieces: seq<string>, d: set<char>): int {
    if pieces == [] then 0 else Payload(pieces[0], d) + PayloadAll(pieces[1..], d)
  }

  lemma {:induction false} PiecesPayload(s: string, c: char, d: set<char>)
    requires Delimiters(d) && c in d
    ensures PayloadAll(Pieces(s, c), d) <= Payload(s, d)
    decreases |s|
  {
    hide Payload, PayloadAll, TrimCopy, Keep;
    var i := IndexOf(s, c);
    var first := TrimCopy(s[..i]);
    PayloadTrim(s[..i], d);
    if i == |s| {
      assert s[..i] == s;
      KeepFirst(first, [], d);
      assert Keep(first) + [] == Keep(first);
    } else {
      var rest := s[i + 1..];
      assert s == s[..i] + ([c] + rest);
      PayloadSum(s[..i], [c] + rest, d);
      PayloadCons(c, rest, d);
      PiecesPayload(rest, c, d);
      KeepFirst(first, Pieces(rest, c), d);
    }
    NoPieces(d);
  }

  lemma NoPieces(d: set<char>)
    ensures PayloadAll([], d) == 0
  {}

  lemma KeepFirst(x: string, rest: seq<string>, d: set<char>)
    ensures PayloadAll(Keep(x) + rest, d) == Payload(x, d) + PayloadAll(rest, d)
  {
    if x == "" {
      assert Keep(x) + rest == rest;
    } else {
      assert (Keep(x) + rest)[1..] == rest;
    }
  }

  lemma {:induction false} PiecesPlain(s: string, c: char)
    ensures forall p :: p in Pieces(s, c) ==> p != "" && c !in p && forall x :: x in p ==> x in s
    decreases |s|
  {
    var i := IndexOf(s, c);
    var x := TrimCopy(s[..i]);
    TrimShorter(s[..i]);
    TrimShorter(TrimLeft(s[..i]));
    assert forall y :: y in x ==> y in s[..i];
    if i < |s| {
      PiecesPlain(s[i + 1..], c);
      assert Pieces(s, c) == Keep(x) + Pieces(s[i + 1..], c);
    } else {
      assert s[..i] == s && Pieces(s, c) == Keep(x);
    }
  }

  function ParamSize(p: Param): nat { |p.0| + |p.1| }

  function TotalSize(params: seq<Param>): nat {
    if params == [] then 0 else ParamSize(params[0]) + TotalSize(params[1..])
  }

  lemma {:induction false} TotalSizeSum(a: seq<Param>, b: seq<Param>)
    ensures TotalSize(a + b) == TotalSize(a) + TotalSize(b)
  {
    if a == [] {
      assert a + b == b;
    } else {
      assert (a + b)[1..] == a[1..] + b;
      TotalSizeSum(a[1..], b);
    }
  }

  lemma {:induction false} FieldsBound(fields: seq<string>)
    requires forall p :: p in fields ==> '=' !in p
    ensures PayloadAll(fields, {'='}) >= 0
    ensures fields != [] ==> PayloadAll(fields, {'='}) >= |Decode(fields[|fields| - 1])|
  {
    if fields != [] {
      CountNone(fields[0], {'='});
      FieldsBound(fields[1..]);
    }
  }

  /** One piece of the query gives at most its payload. */
  lemma FieldsPayload(piece: string)
    requires '&' !in piece
    ensures TotalSize(ParseFields(Pieces(piece, '='))) <= Payload(piece, SEPARATORS)
  {
    hide Pieces;
    var fields := Pieces(piece, '=');
    PiecesPlain(piece, '=');
    PiecesPayload(piece, '=', {'='});
    CountAbsent(piece, '&', SEPARATORS);
    assert SEPARATORS - {'&'} == {'='};
    FieldsBound(fields);
    if fields != [] {
      CountNone(fields[0], {'='});
      FieldsBound(fields[1..]);
      assert ParseFields(fields)[1..] == [];
    }
  }

  lemma {:induction false} PiecesBound(pieces: seq<string>)
    requires forall p :: p in pieces ==> '&' !in p
    ensures TotalSize(ParsePieces(pieces)) <= PayloadAll(pieces, SEPARATORS)
  {
    hide Pieces, Payload, ParseFields;
    if pieces != [] {
      FieldsPayload(pieces[0]);
      PiecesBound(pieces[1..]);
      TotalSizeSum(ParseFields(Pieces(pieces[0], '=')), ParsePieces(pieces[1..]));
    }
  }

  /** No query string gives more characters than its decoded text holds besides the separators. */
  lemma ParseBound(s: string)
    ensures TotalSize(Parse(s)) <= Payload(s, SEPARATORS)
  {
    PiecesPlain(s, '&');
    PiecesPayload(s, '&', SEPARATORS);
    PiecesBound(Pieces(s, '&'));
  }

  // ----- trimming and splitting what was printed

  lemma {:induction false} TrimLeftSum(x: string, t: string)
    ensures TrimLeft(x + t) == if TrimLeft(x) == "" then TrimLeft(t) else TrimLeft(x) + t
  {
    if x == "" {
      assert x + t == t;
    } else {
      assert (x + t)[1..] == x[1..] + t;
      TrimLeftSum(x[1..], t);
    }
  }

  lemma {:induction false} TrimRightSum(x: string, t: string)
    ensures TrimRight(x + t) == if TrimRight(t) == "" then TrimRight(x) else x + TrimRight(t)
    decreases |t|
  {
    if t == "" {
      assert x + t == x;
    } else {
      assert (x + t)[..|x + t| - 1] == x + t[..|t| - 1];
      TrimRightSum(x, t[..|t| - 1]);
    }
  }

  lemma {:induction false} TrimLeftTwice(x: string)
    ensures TrimLeft(TrimLeft(x)) == TrimLeft(x)
  {
    if x != "" && IsSpaceOrTab(x[0]) {
      TrimLeftTwice(x[1..]);
    }
  }

  lemma {:induction false} TrimRightFirst(x: string)
    ensures TrimCopy(TrimRight(x)) == TrimCopy(x)
    decreases |x|
  {
    if x != "" && IsSpaceOrTab(x[|x| - 1]) {
      var a, b := x[..|x| - 1], [x[|x| - 1]];
      assert x == a + b && b[1..] == "" && b[..0] == "";
      TrimRightFirst(a);
      TrimLeftSum(a, b);
      TrimRightSum(TrimLeft(a), b);
    }
  }

  lemma PiecesJoin(a: string, c: char, b: string)
    requires c !in a
    ensures Pieces(a + ([c] + b), c) == Keep(TrimCopy(a)) + Pieces(b, c)
    ensures Pieces(a, c) == Keep(TrimCopy(a))
  {
    var s := a + ([c] + b);
    assert s[..|a|] == a && s[|a|] == c && s[|a| + 1..] == b && a[..|a|] == a;
    IndexOfAt(s, c, |a|);
    IndexOfAt(a, c, |a|);
  }

  /** The one parameter that a printed one is read as, if any. */
  function Reread(p: Param): seq<Param> {
    ParseFields(Keep(TrimCopy(p.0)) + Keep(TrimCopy(Encode(p.1))))
  }

  predicate NoSeparators(s: string) { '&' !in s && '=' !in s }

  lemma TrimmedItem(k: string, e: string)
    ensures TrimCopy(k + ("=" + e)) == TrimLeft(k) + ("=" + TrimRight(e))
    ensures TrimCopy(TrimLeft(k)) == TrimCopy(k) && TrimCopy(TrimRight(e)) == TrimCopy(e)
  {
    hide TrimLeft, TrimRight;
    EqualsStays(e);
    TrimLeftSum(k, "=" + e);
    TrimLeftTwice(k);
    TrimRightFirst(e);
    NothingTrimmed("=" + e);
    TrimRightSum(TrimLeft(k), "=" + e);
  }

  lemma EqualsStays(e: string)
    ensures TrimLeft("=" + e) == "=" + e && TrimRight("=" + e) == "=" + TrimRight(e)
  {
    TrimRightSum("=", e);
    assert "="[..0] == "";
  }

  lemma NothingTrimmed(s: string)
    ensures "" + s == s
  {}

  lemma RereadShape(k: string, e: string)
    requires '=' !in k && '=' !in e
    ensures Pieces(TrimCopy(k + ("=" + e)), '=') == Keep(TrimCopy(k)) + Keep(TrimCopy(e))
    ensures TrimCopy(k + ("=" + e)) != ""
  {
    hide TrimLeft, TrimRight, Pieces, Keep, TrimCopy;
    var a, b := TrimLeft(k), TrimRight(e);
    TrimmedItem(k, e);
    TrimShorter(k);
    TrimShorter(e);
    PiecesJoin(a, '=', b);
    PiecesJoin(b, '=', "");
  }

  lemma PrintedFirst(params: seq<Param>)
    requires params != [] && NoSeparators(params[0].0) && NoSeparators(Encode(params[0].1))
    ensures Parse(Print(params)) == Reread(params[0]) + Parse(Print(params[1..]))
  {
    hide Encode, Decode;
    var k, e := params[0].0, Encode(params[0].1);
    var item, rest := k + ("=" + e), Print(params[1..]);
    RereadShape(k, e);
    PiecesJoin(item, '&', rest);
    if |params| == 1 {
      assert Print(params) == item by { assert e + "" == e; }
      assert Parse("") == [] by { assert TrimCopy("") == ""; }
      assert Pieces(item, '&')[1..] == [];
    } else {
      PrintedItem(k, e, rest);
      assert Print(params) == item + ("&" + rest);
      assert Pieces(item + ("&" + rest), '&') == [TrimCopy(item)] + Pieces(rest, '&');
      assert ([TrimCopy(item)] + Pieces(rest, '&'))[1..] == Pieces(rest, '&');
    }
  }

  lemma PrintedItem(k: string, e: string, rest: string)
    ensures k + ("=" + (e + ("&" + rest))) == (k + ("=" + e)) + ("&" + rest)
  {
    Assoc(k, "=" + e, "&" + rest);
    Assoc("=", e, "&" + rest);
  }

  // ----- parameters that survive

  lemma {:induction false} EncodeSum(a: string, b: string)
    requires NUL !in a
    ensures Encode(a + b) == Encode(a) + Encode(b)
  {
    if a == "" {
      assert a + b == b;
    } else {
      assert (a + b)[1..] == a[1..] + b;
      EncodeSum(a[1..], b);
    }
  }

  lemma {:induction false} EncodeKeeps(s: string, c: char)
    requires NUL !in s && c in {'&', '='}
    ensures c in Encode(s) <==> c in s
  {
    if s != "" {
      EncodeKeeps(s[1..], c);
      assert c !in UPPER_HEX;
      assert c in s <==> c == s[0] || c in s[1..];
      var first := if Special(s[0]) then PercentCode(s[0]) else [s[0]];
      assert c in first <==> c == s[0];
      assert c in Encode(s) <==> c in first || c in Encode(s[1..]);
    }
  }

  /** Outer blanks; those of a printed value can only be tabs. */
  predicate Outer(s: string, blanks: set<char>) { s != "" && (s[0] in blanks || s[|s| - 1] in blanks) }

  lemma TrimmedIff(s: string)
    ensures TrimCopy(s) == s <==> !Outer(s, {' ', '\t'})
  {
    TrimShorter(s);
    TrimShorter(TrimLeft(s));
    if s != "" {
      TrimShorter(s[1..]);
      TrimShorter(s[..|s| - 1]);
    }
  }

  lemma EncodedLast(s: string)
    requires NUL !in s && s != ""
    ensures Encode(s) != ""
    ensures Encode(s)[|Encode(s)| - 1] in {' ', '\t'} <==> s[|s| - 1] == '\t'
  {
    hide Encode;
    var n := |s| - 1;
    assert s == s[..n] + [s[n]] && [s[n]][1..] == "";
    EncodeSum(s[..n], [s[n]]);
    assert forall d :: 0 <= d < 16 ==> UPPER_HEX[d] !in {' ', '\t'};
    EncodedOne(s[n]);
  }

  lemma EncodedOne(c: char)
    requires c != NUL
    ensures Encode([c]) == if Special(c) then PercentCode(c) else [c]
  {
    assert [c][1..] == "";
  }

  lemma EncodedOuter(s: string)
    requires NUL !in s
    ensures Outer(Encode(s), {' ', '\t'}) <==> Outer(s, {'\t'})
  {
    if s != "" {
      EncodedLast(s);
      assert Encode(s)[0] in {' ', '\t'} <==> s[0] == '\t';
    }
  }

  /** Nothing of the parameter is dropped while decoding or splitting. */
  predicate Lossless(p: Param) {
    && EscapeFree(p.0) && NoSeparators(p.0)
    && EscapeFree(p.1) && NoSeparators(p.1) && NUL !in p.1
  }

  predicate Trimmed(p: Param) { !Outer(p.0, {' ', '\t'}) && !Outer(p.1, {'\t'}) }

  /** The parameters that come back as they were sent. */
  predicate Clean(p: Param) { Lossless(p) && Trimmed(p) && p.0 != "" && '+' !in p.0 }

  lemma PairPayload(p: Param)
    requires Bytes(p.1)
    ensures Payload(p.0, SEPARATORS) + Payload(Encode(p.1), SEPARATORS) <= ParamSize(p)
    ensures Payload(p.0, SEPARATORS) + Payload(Encode(p.1), SEPARATORS) == ParamSize(p) ==> Lossless(p)
  {
    hide Decode, Encode, EscapeFree, Count;
    DecodeRaw(p.0);
    DecodeEncode(p.1);
    CountNone(p.0, SEPARATORS);
    CountNone(Encode(p.1), SEPARATORS);
    if NUL !in p.1 {
      EncodeKeeps(p.1, '&');
      EncodeKeeps(p.1, '=');
    }
  }

  predicate AllBytes(params: seq<Param>) { forall i :: 0 <= i < |params| ==> Bytes(params[i].1) }

  lemma {:induction false} PrintPayload(params: seq<Param>)
    requires AllBytes(params)
    ensures Payload(Print(params), SEPARATORS) <= TotalSize(params)
    ensures Payload(Print(params), SEPARATORS) == TotalSize(params) ==> forall p :: p in params ==> Lossless(p)
  {
    hide Bytes, Lossless;
    if params != [] {
      var k, e := params[0].0, Encode(params[0].1);
      var more := if |params| == 1 then "" else "&" + Print(params[1..]);
      PairPayload(params[0]);
      PayloadSum(k, "=" + (e + more), SEPARATORS);
      PayloadCons('=', e + more, SEPARATORS);
      PayloadSum(e, more, SEPARATORS);
      if |params| > 1 {
        PayloadCons('&', Print(params[1..]), SEPARATORS);
      }
      assert AllBytes(params[1..]);
      PrintPayload(params[1..]);
      NoPayload();
    }
  }

  lemma NoPayload()
    ensures Payload("", SEPARATORS) == 0
  {}

  /** What a lossless parameter is read back as: no more than was sent, and less if it had outer blanks. */
  lemma RereadBound(p: Param)
    requires Lossless(p) && Bytes(p.1)
    ensures TotalSize(Reread(p)) <= ParamSize(p)
    ensures TotalSize(Reread(p)) == ParamSize(p) ==> Trimmed(p)
  {
    hide TrimCopy, Decode, Encode, EscapeFree, Outer, Count;
    var k, e := p.0, Encode(p.1);
    var a, b := TrimCopy(k), TrimCopy(e);
    DecodeRaw(a);
    DecodeEncode(p.1);
    PayloadTrim(e, {});
    PayloadTrim(k, {});
    CountNone(e, {});
    CountNone(b, {});
    TrimmedIff(k);
    TrimmedIff(e);
    EncodedOuter(p.1);
    ShorterWhenTrimmed(k);
    ShorterWhenTrimmed(e);
    ParsedSize(a, b);
  }

  lemma ParsedSize(a: string, b: string)
    ensures TotalSize(ParseFields(Keep(a) + Keep(b))) <= |Decode(a)| + |Decode(b)|
  {
    var r := ParseFields(Keep(a) + Keep(b));
    assert Decode("") == "";
    if r != [] {
      assert r[1..] == [];
    }
  }

  lemma ShorterWhenTrimmed(x: string)
    ensures |TrimCopy(x)| == |x| ==> TrimCopy(x) == x
  {
    TrimShorter(x);
    TrimShorter(TrimLeft(x));
    if x != "" {
      TrimShorter(x[1..]);
      TrimShorter(x[..|x| - 1]);
    }
  }

  lemma RereadTrimmed(p: Param)
    requires Lossless(p) && Bytes(p.1) && Trimmed(p)
    ensures Reread(p) == if p.0 != "" then [(PlusToSpace(p.0), p.1)] else if p.1 != "" then [(p.1, "")] else []
  {
    hide TrimCopy, EscapeFree, Outer, Count, PlusToSpace;
    DecodeRaw(p.0);
    DecodeEncode(p.1);
    TrimmedIff(p.0);
    TrimmedIff(Encode(p.1));
    EncodedOuter(p.1);
    assert Decode("") == "" && Encode("") == "";
  }

  lemma EncodedSeparators(p: Param)
    requires Lossless(p)
    ensures NoSeparators(Encode(p.1))
  {
    EncodeKeeps(p.1, '&');
    EncodeKeeps(p.1, '=');
  }

  lemma {:induction false} RereadAllBound(params: seq<Param>)
    requires AllBytes(params) && forall p :: p in params ==> Lossless(p)
    ensures TotalSize(Parse(Print(params))) <= TotalSize(params)
    ensures TotalSize(Parse(Print(params))) == TotalSize(params) ==> forall p :: p in params ==> Trimmed(p)
  {
    hide Lossless, Bytes, Trimmed, Reread, Print, Parse, Encode;
    if params == [] {
      NothingPrinted();
    } else {
      EncodedSeparators(params[0]);
      assert Lossless(params[0]) ==> NoSeparators(params[0].0) by { LosslessKey(params[0]); }
      PrintedFirst(params);
      RereadBound(params[0]);
      assert AllBytes(params[1..]);
      RereadAllBound(params[1..]);
      TotalSizeSum(Reread(params[0]), Parse(Print(params[1..])));
    }
  }

  lemma LosslessKey(p: Param)
    requires Lossless(p)
    ensures NoSeparators(p.0)
  {}

  lemma NothingPrinted()
    ensures Parse(Print([])) == []
  {
    assert TrimCopy("") == "";
  }

  predicate AllClean(params: seq<Param>) { forall p :: p in params ==> Clean(p) }

  /** Read back: keys are never empty, and hold no plus sign unless a value took the place of an empty key. */
  lemma {:induction false} Survivors(params: seq<Param>)
    requires AllBytes(params) && forall p :: p in params ==> Lossless(p) && Trimmed(p)
    ensures forall q :: q in Parse(Print(params)) ==> q.0 != ""
    ensures (forall p :: p in params ==> p.0 != "") ==> forall q :: q in Parse(Print(params)) ==> '+' !in q.0
    ensures AllClean(params) ==> Parse(Print(params)) == params
  {
    hide Lossless, Bytes, Trimmed, Reread, Print, Parse, Encode, PlusToSpace;
    if params == [] {
      NothingPrinted();
    } else {
      var p, rest := params[0], params[1..];
      EncodedSeparators(p);
      LosslessKey(p);
      PrintedFirst(params);
      RereadTrimmed(p);
      PlusGone(p.0);
      assert AllBytes(rest);
      Survivors(rest);
      assert params == [p] + rest && p in params;
    }
  }

  lemma {:induction false} PlusGone(s: string)
    ensures '+' !in PlusToSpace(s)
  {
    if s != "" {
      PlusGone(s[1..]);
    }
  }

  lemma WithoutOne<T>(s: seq<T>, j: nat)
    requires j < |s|
    ensures multiset(s[..j] + s[j + 1..]) == multiset(s) - multiset{s[j]}
  {
    assert s == s[..j] + ([s[j]] + s[j + 1..]);
  }

  /** The first element of a list taken out of a permutation of it. */
  lemma TakeOut<T>(a: seq<T>, b: seq<T>) returns (j: nat)
    requires a != [] && multiset(a) == multiset(b)
    ensures j < |b| && b[j] == a[0] && multiset(a[1..]) == multiset(b[..j] + b[j + 1..])
  {
    j := PlaceIn(b, a[0], a);
    WithoutOne(b, j);
    WithoutFirst(a);
  }

  lemma PlaceIn<T>(b: seq<T>, x: T, a: seq<T>) returns (j: nat)
    requires x in a && multiset(a) == multiset(b)
    ensures j < |b| && b[j] == x
  {
    assert x in multiset(b);
    j :| 0 <= j < |b| && b[j] == x;
  }

  lemma WithoutFirst<T>(s: seq<T>)
    requires s != []
    ensures multiset(s[1..]) == multiset(s) - multiset{s[0]}
  {
    assert s == [s[0]] + s[1..];
  }

  lemma {:induction false} SizeOfPermutation(a: seq<Param>, b: seq<Param>)
    requires multiset(a) == multiset(b)
    ensures TotalSize(a) == TotalSize(b)
  {
    if a == [] {
      assert |multiset(b)| == 0;
    } else {
      var j := TakeOut(a, b);
      assert b == b[..j] + ([b[j]] + b[j + 1..]);
      SizeOfPermutation(a[1..], b[..j] + b[j + 1..]);
      TotalSizeSum(b[..j], b[j + 1..]);
      TotalSizeSum(b[..j], [b[j]] + b[j + 1..]);
    }
  }

  /** The parsed parameters are, as a multimap, the ones that were printed. */
  predicate RoundTrips(params: seq<Param>) { multiset(Parse(Print(params))) == multiset(params) }

  /** The round trip holds exactly for clean parameters, and then also keeps their order. */
  lemma QueryRoundTrip(params: seq<Param>)
    requires AllBytes(params)
    ensures RoundTrips(params) <==> AllClean(params)
    ensures AllClean(params) ==> Parse(Print(params)) == params
  {
    hide Parse, Print, Payload, Lossless, Trimmed, Bytes;
    var r := Parse(Print(params));
    PrintPayload(params);
    ParseBound(Print(params));
    if RoundTrips(params) {
      SizeOfPermutation(r, params);
      RereadAllBound(params);
      Survivors(params);
      forall p | p in params
        ensures p in r
      {
        assert p in multiset(params);
      }
    } else if AllClean(params) {
      Survivors(params);
    }
  }

  /** A value that looks escaped comes back decoded. */
  lemma EscapedValueLost()
    ensures !RoundTrips([("k", "%41")])
  {
    hide EscapeFree;
    var p: Param := ("k", "%41");
    QueryRoundTrip([p]);
    EscapeExample();
    assert p in [p];
  }

  lemma EscapeExample()
    ensures !EscapeFree("%41")
  {
    var s := "%41";
    assert s[1..] == "41" && "41"[1..] == "1" && "1"[1..] == "" && s[0..] == s;
    assert HexPrefix("", 0) && HexPrefix("1", 1) && HexPrefix("41", 2);
    assert Escape(s);
  }

  // ----- the program

  method FromHexToI(s: string, start: nat, digits: nat) returns (val: Option<nat>)
    requires start <= |s| && digits > 0
    ensures val == if HexPrefix(s[start..], digits) then Some(Spelled(s[start..], digits, 0)) else None
  {
    var i: nat, cnt: nat, v: nat := start, digits, 0;
    while cnt > 0
      invariant i <= |s|
      invariant HexPrefix(s[start..], digits) <==> HexPrefix(s[i..], cnt)
      invariant HexPrefix(s[i..], cnt) ==> Spelled(s[start..], digits, 0) == Spelled(s[i..], cnt, v)
    {
      if i == |s| || !IsHex(s[i]) {
        return None;
      }
      assert s[i..][1..] == s[i + 1..];
      v := v * 16 + HexValue(s[i]);
      i, cnt := i + 1, cnt - 1;
    }
    return Some(v);
  }

  method DecodeUrl(s: string) returns (result: string)
    ensures result == Decode(s)
  {
    result := "";
    var i := 0;
    while i < |s|
      invariant i <= |s| && result + Decode(s[i..]) == Decode(s)
    {
      var unit, n := DecodeUnit(s, i);
      assert s[i..][n..] == s[i + n..];
      Assoc(result, unit, Decode(s[i + n..]));
      result := result + unit;
      i := i + n;
    }
    assert s[|s|..] == "";
  }

  /** One escape or one character. */
  method DecodeUnit(s: string, i: nat) returns (unit: string, n: nat)
    requires i < |s|
    ensures 0 < n <= |s| - i && Decode(s[i..]) == unit + Decode(s[i..][n..])
  {
    var t := s[i..];
    if s[i] == '%' && i + 1 < |s| {
      if s[i + 1] == 'u' {
        assert t[2..] == s[i + 2..];
        var val := FromHexToI(s, i + 2, 4);
        if val.Some? {
          SpelledBound(t[2..], 4, 0, 1);
          assert Escape(t) && ToUtf8(val.value) == Escaped(t) && EscapeLength(t) == 6;
          return ToUtf8(val.value), 6;
        }
      } else {
        assert t[1..] == s[i + 1..];
        var val := FromHexToI(s, i + 1, 2);
        if val.Some? {
          SpelledBound(t[1..], 2, 0, 1);
          assert Escape(t) && [val.value as char] == Escaped(t) && EscapeLength(t) == 3;
          return [val.value as char], 3;
        }
      }
    }
    return [if s[i] == '+' then ' ' else s[i]], 1;
  }

  method EncodeUrl(s: string) returns (result: string)
    ensures result == Encode(s)
  {
    hide PercentCode;
    result := "";
    var i := 0;
    while i < |s| && s[i] != NUL
      invariant i <= |s| && result + Encode(s[i..]) == Encode(s)
    {
      var unit := EncodeUnit(s[i]);
      assert s[i..][1..] == s[i + 1..];
      Assoc(result, unit, Encode(s[i + 1..]));
      result := result + unit;
      i := i + 1;
    }
  }

  method EncodeUnit(c: char) returns (unit: string)
    ensures unit == if Special(c) then PercentCode(c) else [c]
  {
    match c {
      case ' ' => unit := "%20";
      case '+' => unit := "%2B";
      case '\r' => unit := "%0D";
      case '\n' => unit := "%0A";
      case '\'' => unit := "%27";
      case ',' => unit := "%2C";
      case ';' => unit := "%3B";
      case _ => unit := if c as int >= 0x80 then PercentCode(c) else [c];
    }
  }

  /** The trimmed bounds of a piece between two delimiters; they may cross when nothing is left. */
  method Trim(s: string, left0: nat, right0: nat) returns (left: nat, right: nat)
    requires left0 <= right0 <= |s|
    requires left0 > 0 ==> !IsSpaceOrTab(s[left0 - 1])
    requires right0 < |s| ==> !IsSpaceOrTab(s[right0])
    ensures left <= |s| && right <= |s|
    ensures if left < right then s[left..right] == TrimCopy(s[left0..right0]) else TrimCopy(s[left0..right0]) == ""
  {
    hide TrimLeft, TrimRight;
    left := SkipLeft(s, left0, right0);
    right := SkipRight(s, left, right0);
    assert s[right0..right0] == "";
    TrimNothing();
  }

  lemma TrimNothing()
    ensures TrimLeft("") == "" && TrimRight("") == ""
  {}

  method SkipLeft(s: string, left0: nat, right0: nat) returns (left: nat)
    requires left0 <= right0 <= |s| && (right0 < |s| ==> !IsSpaceOrTab(s[right0]))
    ensures left0 <= left <= right0 && TrimLeft(s[left0..right0]) == s[left..right0]
    ensures left < right0 ==> !IsSpaceOrTab(s[left])
  {
    left := left0;
    while left < |s| && IsSpaceOrTab(s[left])
      invariant left0 <= left <= right0 && TrimLeft(s[left0..right0]) == TrimLeft(s[left..right0])
    {
      if left < right0 {
        assert s[left..right0][1..] == s[left + 1..right0];
      }
      left := left + 1;
    }
  }

  method SkipRight(s: string, left: nat, right0: nat) returns (right: nat)
    requires left <= right0 <= |s|
    requires left < right0 ==> !IsSpaceOrTab(s[left])
    ensures right <= right0
    ensures left < right0 ==> left < right && TrimRight(s[left..right0]) == s[left..right]
  {
    right := right0;
    while right > 0 && IsSpaceOrTab(s[right - 1])
      invariant right <= right0
      invariant left < right0 ==> left < right && TrimRight(s[left..right0]) == TrimRight(s[left..right])
    {
      if left + 1 < right {
        assert s[left..right][..right - 1 - left] == s[left..right - 1];
      }
      right := right - 1;
    }
  }

  method Split(s: string, d: char) returns (pieces: seq<string>)
    requires !IsSpaceOrTab(d)
    ensures pieces == Pieces(s, d)
  {
    hide Pieces, Keep, TrimCopy;
    pieces := [];
    var i, beg := 0, 0;
    assert s[0..] == s;
    while i < |s|
      invariant beg <= i <= |s| && d !in s[beg..i] && (beg > 0 ==> s[beg - 1] == d)
      invariant pieces + Pieces(s[beg..], d) == Pieces(s, d)
    {
      if s[i] == d {
        var piece := TrimmedPiece(s, beg, i);
        assert s[beg..] == s[beg..i] + ([d] + s[i + 1..]);
        PiecesJoin(s[beg..i], d, s[i + 1..]);
        Assoc(pieces, piece, Pieces(s[i + 1..], d));
        pieces := pieces + piece;
        beg := i + 1;
      } else {
        assert s[beg..i + 1] == s[beg..i] + [s[i]];
      }
      i := i + 1;
    }
    assert s[beg..|s|] == s[beg..];
    PiecesJoin(s[beg..], d, "");
    if i > 0 {
      var piece := TrimmedPiece(s, beg, i);
      pieces := pieces + piece;
    } else {
      NothingToSplit(d);
    }
  }

  method TrimmedPiece(s: string, beg: nat, end: nat) returns (piece: seq<string>)
    requires beg <= end <= |s|
    requires beg > 0 ==> !IsSpaceOrTab(s[beg - 1])
    requires end < |s| ==> !IsSpaceOrTab(s[end])
    ensures piece == Keep(TrimCopy(s[beg..end]))
  {
    var left, right := Trim(s, beg, end);
    piece := if left < right then [s[left..right]] else [];
  }

  lemma NothingToSplit(d: char)
    ensures Pieces("", d) == []
  {
    assert TrimCopy("") == "";
  }

  method ParamsToQueryStr(params: seq<Param>) returns (query: string)
    ensures query == Print(params)
  {
    query := "";
    assert params[0..] == params;
    for i := 0 to |params|
      invariant query + Rest(params, i) == Print(params)
    {
      var sep := if i > 0 then "&" else "";
      var value := EncodeUrl(params[i].1);
      assert params[i..][1..] == params[i + 1..];
      RestStep(params, i, sep, value);
      var item := sep + (params[i].0 + ("=" + value));
      Assoc(query, item, Rest(params, i + 1));
      query := query + item;
    }
  }

  /** What is still to be printed, with the separator before it. */
  ghost function Rest(params: seq<Param>, i: nat): string
    requires i <= |params|
  {
    if i == |params| then "" else (if i > 0 then "&" else "") + Print(params[i..])
  }

  lemma RestStep(params: seq<Param>, i: nat, sep: string, value: string)
    requires i < |params| && sep == (if i > 0 then "&" else "") && value == Encode(params[i].1)
    ensures Rest(params, i) == (sep + (params[i].0 + ("=" + value))) + Rest(params, i + 1)
  {
    hide Encode;
    var k, more := params[i].0, Rest(params, i + 1);
    assert params[i..][1..] == params[i + 1..];
    assert Print(params[i..]) == k + ("=" + (value + more));
    Assoc("=", value, more);
    Assoc(k, "=" + value, more);
    Assoc(sep, k + ("=" + value), more);
  }

  method ParseQueryText(s: string) returns (params: seq<Param>)
    ensures params == Parse(s)
  {
    hide Pieces, ParseFields;
    params := [];
    var items := Split(s, '&');
    assert items[0..] == items;
    for i := 0 to |items|
      invariant params + ParsePieces(items[i..]) == Parse(s)
    {
      var more := ParseItem(items[i]);
      assert items[i..][1..] == items[i + 1..];
      Assoc(params, more, ParsePieces(items[i + 1..]));
      params := params + more;
    }
    assert items[|items|..] == [];
  }

  /** The first field is the key, and every later one replaces the value. */
  method ParseItem(item: string) returns (params: seq<Param>)
    ensures params == ParseFields(Pieces(item, '='))
  {
    hide Pieces;
    var fields := Split(item, '=');
    NonemptyFields(item);
    var key, val := "", "";
    for j := 0 to |fields|
      invariant key == if j == 0 then "" else fields[0]
      invariant val == if j <= 1 then "" else fields[j - 1]
    {
      if key == "" {
        key := fields[j];
      } else {
        val := fields[j];
      }
    }
    if key == "" {
      return [];
    }
    var k := DecodeUrl(key);
    var v := DecodeUrl(val);
    params := [(k, v)];
  }

  lemma NonemptyFields(piece: string)
    ensures var fields := Pieces(piece, '='); fields != [] ==> fields[0] != ""
  {
    PiecesPlain(piece, '=');
    var fields := Pieces(piece, '=');
    assert fields != [] ==> fields[0] in fields;
  }

  /** What two parameters look like in a query string. */
  lemma PrintExample()
    ensures Print([("q", "a "), ("p", "")]) == "q=a%20&p="
  {
    hide Encode;
    var params := [("q", "a "), ("p", "")];
    assert params[1..] == [("p", "")];
    EncodeExample();
    assert Print([("p", "")]) == "p=";
  }

  lemma EncodeExample()
    ensures Encode("a ") == "a%20" && Encode("") == ""
  {
    assert "a "[1..] == " " && PercentCode(' ') == "%20";
    EncodedOne(' ');
  }
}
