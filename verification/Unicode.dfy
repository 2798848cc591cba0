/**
 The UTF-8 layer of cppjieba in Unicode.hpp: the decoder with its byte offsets, and the mapping of
 rune ranges to words.
 Bytes and code points are machine-width integers: a mask of low bits is a remainder, a shift is
 a product or quotient by a power of two, and an OR of disjoint bits is a sum.
 */
module Unicode {
  import opened Wrappers

  newtype Byte = x: int | 0 <= x < 0x100
  newtype Rune = x: int | 0 <= x < 0x1_0000_0000

  datatype RuneStrLite = RuneStrLite(rune: Rune, len: nat)

  datatype RuneStr = RuneStr(rune: Rune, offset: nat, len: nat, unicodeOffset: nat, unicodeLength: nat)

  /** A closed range [left, right] of positions in a rune array. */
  datatype WordRange = WordRange(left: nat, right: nat) {
    function Length(): int { right - left + 1 }
  }

  datatype Word = Word(word: seq<Byte>, offset: nat, unicodeOffset: nat, unicodeLength: nat)

  // ----- decoding

  function Join2(b0: Byte, b1: Byte): Rune {
    (b0 % 0x20) as Rune * 64 + (b1 % 0x40) as Rune
  }

  function Join3(b0: Byte, b1: Byte, b2: Byte): Rune {
    ((b0 % 0x10) as Rune * 64 + (b1 % 0x40) as Rune) * 64 + (b2 % 0x40) as Rune
  }

  function Join4(b0: Byte, b1: Byte, b2: Byte, b3: Byte): Rune {
    (((b0 % 0x08) as Rune * 64 + (b1 % 0x40) as Rune) * 64 + (b2 % 0x40) as Rune) * 64 + (b3 % 0x40) as Rune
  }

  /** The first code point of a byte string; length 0 signals a malformed or truncated one. */
  function DecodeRune(s: seq<Byte>): (r: RuneStrLite)
    ensures r.len <= |s|
  {
    if s == [] then RuneStrLite(0, 0)
    else if s[0] < 0x80 then RuneStrLite((s[0] % 0x80) as Rune, 1)
    else if s[0] <= 0xdf && 1 < |s| then RuneStrLite(Join2(s[0], s[1]), 2)
    else if s[0] <= 0xef && 2 < |s| then RuneStrLite(Join3(s[0], s[1], s[2]), 3)
    else if s[0] <= 0xf7 && 3 < |s| then RuneStrLite(Join4(s[0], s[1], s[2], s[3]), 4)
    else RuneStrLite(0, 0)
  }

  /** What a decoder has seen: the runes of the longest decodable prefix, and whether that is everything. */
  datatype Decoded = Decoded(runes: seq<RuneStr>, ok: bool)

  ghost function DecodeFrom(s: seq<Byte>, i: nat, j: nat): Decoded
    requires i <= |s|
    decreases |s| - i
  {
    if i == |s| then Decoded([], true)
    else
      var rp := DecodeRune(s[i..]);
      if rp.len == 0 then Decoded([], false)
      else
        var rest := DecodeFrom(s, i + rp.len, j + 1);
        Decoded([RuneStr(rp.rune, i, rp.len, j, 1)] + rest.runes, rest.ok)
  }

  lemma DecodeStep(s: seq<Byte>, i: nat, j: nat, rune: Rune, len: nat)
    requires i < |s| && len > 0 && DecodeRune(s[i..]) == RuneStrLite(rune, len)
    ensures i + len <= |s|
    ensures var rest := DecodeFrom(s, i + len, j + 1);
            && DecodeFrom(s, i, j) == Decoded([RuneStr(rune, i, len, j, 1)] + rest.runes, rest.ok)
            && RunesOf(DecodeFrom(s, i, j).runes) == [rune] + RunesOf(rest.runes)
  {}

  ghost function Decode(s: seq<Byte>): Decoded { DecodeFrom(s, 0, 0) }

  ghost function RunesOf(runes: seq<RuneStr>): (r: seq<Rune>)
    ensures |r| == |runes|
  {
    seq(|runes|, i requires 0 <= i < |runes| => runes[i].rune)
  }

  /** The end of the longest run of runes satisfying p that starts at i. */
  function RunEnd(p: Rune -> bool, runes: seq<RuneStr>, i: nat, end: nat): (r: nat)
    requires i <= end <= |runes|
    ensures i <= r <= end
    decreases end - i
  {
    if i < end && p(runes[i].rune) then RunEnd(p, runes, i + 1, end) else i
  }

  /** The run is as long as possible, and no other position has this property. */
  lemma {:induction false} RunEndIsMaximal(p: Rune -> bool, runes: seq<RuneStr>, i: nat, r: nat, end: nat)
    requires i <= r <= end <= |runes|
    ensures r == RunEnd(p, runes, i, end) <==>
              && (forall k :: i <= k < r ==> p(runes[k].rune))
              && (r < end ==> !p(runes[r].rune))
    decreases end - i
  {
    if i < r {
      RunEndIsMaximal(p, runes, i + 1, r, end);
    }
  }

  const UINT32_LIMIT: nat := 0x1_0000_0000

  method DecodeRunesInString(s: seq<Byte>) returns (ok: bool, runes: seq<RuneStr>)
    requires |s| < UINT32_LIMIT
    ensures ok == Decode(s).ok
    ensures runes == if ok then Decode(s).runes else []
    ensures ok ==> OffsetsTile(runes, |s|)
  {
    hide DecodeRune, DecodeTotal;
    DecodeTotalStart(s);
    runes := [];
    var i, j := 0, 0;
    while i < |s|
      invariant i <= |s| && DecodeTotal(s, i, j, runes) == Decode(s)
    {
      var rp := DecodeRune(s[i..]);
      DecodeTotalStep(s, i, j, runes);
      if rp.len == 0 {
        return false, [];
      }
      runes := runes + [RuneStr(rp.rune, i, rp.len, j, 1)];
      i := i + rp.len;
      j := j + 1;
    }
    ok := true;
    DecodeTotalEnd(s, j, runes);
    DecodeTiles(s, 0, 0);
  }

  /** The runes so far, followed by those still to be decoded. */
  ghost function DecodeTotal(s: seq<Byte>, i: nat, j: nat, runes: seq<RuneStr>): Decoded
    requires i <= |s|
  {
    var rest := DecodeFrom(s, i, j);
    Decoded(runes + rest.runes, rest.ok)
  }

  lemma DecodeTotalStart(s: seq<Byte>)
    ensures DecodeTotal(s, 0, 0, []) == Decode(s)
  {}

  lemma DecodeTotalStep(s: seq<Byte>, i: nat, j: nat, runes: seq<RuneStr>)
    requires i < |s|
    ensures var rp := DecodeRune(s[i..]);
            if rp.len == 0 then DecodeTotal(s, i, j, runes) == Decoded(runes, false)
            else
              DecodeTotal(s, i, j, runes)
              == DecodeTotal(s, i + rp.len, j + 1, runes + [RuneStr(rp.rune, i, rp.len, j, 1)])
  {
    hide DecodeRune;
    var rp := DecodeRune(s[i..]);
    if rp.len != 0 {
      Assoc(runes, [RuneStr(rp.rune, i, rp.len, j, 1)], DecodeFrom(s, i + rp.len, j + 1).runes);
    }
  }

  lemma DecodeTotalEnd(s: seq<Byte>, j: nat, runes: seq<RuneStr>)
    ensures DecodeTotal(s, |s|, j, runes) == Decoded(runes, true)
  {}

  /** Byte offset of rune k, or the length of the text for the position past the last rune. */
  function Offset(runes: seq<RuneStr>, total: nat, k: nat): nat
    requires k <= |runes|
  {
    if k == |runes| then total else runes[k].offset
  }

  /** The runes' byte intervals are non-empty, adjacent, and cover exactly `total` bytes. */
  ghost predicate OffsetsTile(runes: seq<RuneStr>, total: nat) {
    && Offset(runes, total, 0) == 0
    && forall k :: 0 <= k < |runes| ==> RuneFits(runes, total, k)
  }

  ghost predicate RuneFits(runes: seq<RuneStr>, total: nat, k: nat)
    requires k < |runes|
  {
    && runes[k].len >= 1
    && runes[k].offset + runes[k].len == Offset(runes, total, k + 1)
    && runes[k].unicodeOffset == k
    && runes[k].unicodeLength == 1
  }

  lemma {:induction false} DecodeTiles(s: seq<Byte>, i: nat, j: nat)
    requires i <= |s| && DecodeFrom(s, i, j).ok
    ensures var rs := DecodeFrom(s, i, j).runes;
            && Offset(rs, |s|, 0) == i
            && forall k :: 0 <= k < |rs| ==>
                 && rs[k].len >= 1 && rs[k].unicodeOffset == j + k && rs[k].unicodeLength == 1
                 && rs[k].offset + rs[k].len == Offset(rs, |s|, k + 1)
    decreases |s| - i
  {
    hide DecodeRune;
    if i < |s| {
      var rp := DecodeRune(s[i..]);
      DecodeTiles(s, i + rp.len, j + 1);
      var rs := DecodeFrom(s, i, j).runes;
      var rest := DecodeFrom(s, i + rp.len, j + 1).runes;
      assert rs == [rs[0]] + rest;
      forall k | 0 <= k < |rs|
        ensures rs[k].len >= 1 && rs[k].unicodeOffset == j + k && rs[k].unicodeLength == 1
        ensures rs[k].offset + rs[k].len == Offset(rs, |s|, k + 1)
      {
        if k > 0 {
          assert rs[k] == rest[k - 1];
        }
      }
    }
  }

  // ----- words

  function Substr(s: seq<Byte>, pos: nat, len: nat): seq<Byte>
    requires pos <= |s|
  {
    if pos + len <= |s| then s[pos..pos + len] else s[pos..]
  }

  /** The word that a range of runes denotes in the sentence. */
  function GetWordFromRunes(s: seq<Byte>, runes: seq<RuneStr>, wr: WordRange): Word
    requires wr.left <= wr.right < |runes|
    requires runes[wr.left].offset <= runes[wr.right].offset
    requires runes[wr.left].offset <= |s|
    requires runes[wr.left].unicodeOffset <= runes[wr.right].unicodeOffset
  {
    var l, r := runes[wr.left], runes[wr.right];
    Word(Substr(s, l.offset, r.offset - l.offset + r.len), l.offset,
         l.unicodeOffset, r.unicodeOffset - l.unicodeOffset + r.unicodeLength)
  }

  ghost predicate InRange(wrs: seq<WordRange>, n: nat) {
    forall k :: 0 <= k < |wrs| ==> wrs[k].left <= wrs[k].right < n
  }

  /** The ranges are non-empty, adjacent, in order, and cover [lo, hi). */
  ghost predicate Tiles(wrs: seq<WordRange>, lo: nat, hi: nat) {
    if wrs == [] then lo == hi
    else wrs[0].left == lo && lo <= wrs[0].right < hi && Tiles(wrs[1..], wrs[0].right + 1, hi)
  }

  lemma {:induction false} TilesAppend(a: seq<WordRange>, b: seq<WordRange>, lo: nat, mid: nat, hi: nat)
    requires Tiles(a, lo, mid) && Tiles(b, mid, hi)
    ensures Tiles(a + b, lo, hi)
  {
    if a == [] {
      assert a + b == b;
    } else {
      TilesOrdered(b, mid, hi);
      assert (a + b)[1..] == a[1..] + b;
      TilesAppend(a[1..], b, a[0].right + 1, mid, hi);
    }
  }

  lemma {:induction false} TilesOrdered(wrs: seq<WordRange>, lo: nat, hi: nat)
    requires Tiles(wrs, lo, hi)
    ensures lo <= hi
    ensures forall k :: 0 <= k < |wrs| ==> lo <= wrs[k].left <= wrs[k].right < hi
  {
    if wrs != [] {
      TilesOrdered(wrs[1..], wrs[0].right + 1, hi);
      forall k | 0 <= k < |wrs|
        ensures lo <= wrs[k].left <= wrs[k].right < hi
      {
        if k > 0 { assert wrs[k] == wrs[1..][k - 1]; }
      }
    }
  }

  lemma {:induction false} OffsetMonotone(runes: seq<RuneStr>, total: nat, a: nat, b: nat)
    requires OffsetsTile(runes, total) && a <= b <= |runes|
    ensures Offset(runes, total, a) <= Offset(runes, total, b) <= total
    decreases |runes| - a
  {
    if a < |runes| {
      assert RuneFits(runes, total, a);
      if a == b {
        OffsetMonotone(runes, total, a + 1, b + 1);
      } else {
        OffsetMonotone(runes, total, a + 1, b);
      }
    }
  }

  lemma RangeReadable(s: seq<Byte>, runes: seq<RuneStr>, wr: WordRange)
    requires OffsetsTile(runes, |s|) && wr.left <= wr.right < |runes|
    ensures GetWordFromRunes.requires(s, runes, wr)
    ensures Offset(runes, |s|, wr.left) <= Offset(runes, |s|, wr.right + 1) <= |s|
    ensures GetWordFromRunes(s, runes, wr)
         == Word(s[Offset(runes, |s|, wr.left)..Offset(runes, |s|, wr.right + 1)],
                 Offset(runes, |s|, wr.left), wr.left, wr.Length())
  {
    OffsetMonotone(runes, |s|, wr.left, wr.right);
    OffsetMonotone(runes, |s|, wr.left, wr.right + 1);
    assert RuneFits(runes, |s|, wr.left) && RuneFits(runes, |s|, wr.right);
  }

  method GetWordsFromWordRanges(s: seq<Byte>, runes: seq<RuneStr>, wrs: seq<WordRange>) returns (words: seq<Word>)
    requires wrs != [] ==> OffsetsTile(runes, |s|) && InRange(wrs, |runes|)
    ensures words == if wrs == [] then [] else WordsOf(s, runes, wrs)
  {
    words := [];
    for i := 0 to |wrs|
      invariant |words| == i
      invariant forall k :: 0 <= k < i ==> words[k] == SpanWord(s, runes, wrs[k])
    {
      RangeReadable(s, runes, wrs[i]);
      words := words + [GetWordFromRunes(s, runes, wrs[i])];
    }
  }

  /** The text between the outer byte offsets of each range, with its offsets and length in runes. */
  ghost function WordsOf(s: seq<Byte>, runes: seq<RuneStr>, wrs: seq<WordRange>): (words: seq<Word>)
    requires OffsetsTile(runes, |s|) && InRange(wrs, |runes|)
    ensures |words| == |wrs|
  {
    seq(|wrs|, i requires 0 <= i < |wrs| => SpanWord(s, runes, wrs[i]))
  }

  ghost function SpanWord(s: seq<Byte>, runes: seq<RuneStr>, wr: WordRange): Word
    requires OffsetsTile(runes, |s|) && wr.left <= wr.right < |runes|
  {
    RangeReadable(s, runes, wr);
    Word(s[Offset(runes, |s|, wr.left)..Offset(runes, |s|, wr.right + 1)],
         Offset(runes, |s|, wr.left), wr.left, wr.Length())
  }

  method GetStringsFromWords(words: seq<Word>) returns (strs: seq<seq<Byte>>)
    ensures strs == Strings(words)
  {
    strs := [];
    for i := 0 to |words|
      invariant strs == Strings(words[..i])
    {
      strs := strs + [words[i].word];
    }
    assert words[..|words|] == words;
  }

  function Strings(words: seq<Word>): (strs: seq<seq<Byte>>)
    ensures |strs| == |words|
  {
    seq(|words|, i requires 0 <= i < |words| => words[i].word)
  }

  /** Adjacent rune ranges read back, byte for byte, the text they span. */
  lemma {:induction false} TilingConserves(s: seq<Byte>, runes: seq<RuneStr>, wrs: seq<WordRange>, lo: nat, hi: nat)
    requires OffsetsTile(runes, |s|) && Tiles(wrs, lo, hi) && hi <= |runes|
    ensures InRange(wrs, |runes|)
    ensures Offset(runes, |s|, lo) <= Offset(runes, |s|, hi) <= |s|
    ensures Flatten(Strings(WordsOf(s, runes, wrs))) == s[Offset(runes, |s|, lo)..Offset(runes, |s|, hi)]
    decreases |wrs|
  {
    TilesOrdered(wrs, lo, hi);
    OffsetMonotone(runes, |s|, lo, hi);
    if wrs != [] {
      var next := wrs[0].right + 1;
      TilingConserves(s, runes, wrs[1..], next, hi);
      OffsetMonotone(runes, |s|, lo, next);
      var strs := Strings(WordsOf(s, runes, wrs));
      assert strs[1..] == Strings(WordsOf(s, runes, wrs[1..]));
      assert strs[0] == s[Offset(runes, |s|, lo)..Offset(runes, |s|, next)];
    }
  }
}
