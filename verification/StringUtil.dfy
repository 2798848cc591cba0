/**
 UTF-8 in limonp/StringUtil.hpp: the second decoder, the encoder, and how far they undo each other
 (section 3 of RFC 3629).
 */
module StringUtil {
  import opened Digits
  import opened Unicode
  import opened Wrappers

  // ----- decoding

  /** One step of limonp's decoder, which has the branches of DecodeRune written over an index. */
  method Utf8Step(str: seq<Byte>, start: nat) returns (ok: bool, tmp: Rune, i: nat)
    requires start < |str|
    ensures ok == (DecodeRune(str[start..]).len != 0)
    ensures ok ==> start < i && DecodeRune(str[start..]) == RuneStrLite(tmp, i - start)
  {
    i, tmp := start, 0;
    if str[i] < 0x80 {
      tmp := (str[i] % 0x80) as Rune;
      i := i + 1;
    } else if str[i] <= 0xdf && i + 1 < |str| {
      tmp := (str[i] % 0x20) as Rune;
      tmp := tmp * 64 + (str[i + 1] % 0x40) as Rune;
      i := i + 2;
    } else if str[i] <= 0xef && i + 2 < |str| {
      tmp := (str[i] % 0x10) as Rune;
      tmp := tmp * 64 + (str[i + 1] % 0x40) as Rune;
      tmp := tmp * 64 + (str[i + 2] % 0x40) as Rune;
      i := i + 3;
    } else if str[i] <= 0xf7 && i + 3 < |str| {
      tmp := (str[i] % 0x08) as Rune;
      tmp := tmp * 64 + (str[i + 1] % 0x40) as Rune;
      tmp := tmp * 64 + (str[i + 2] % 0x40) as Rune;
      tmp := tmp * 64 + (str[i + 3] % 0x40) as Rune;
      i := i + 4;
    } else {
      return false, tmp, i;
    }
    ok := true;
  }

  /** limonp's decoder: it keeps the runes read before a failure. */
  method Utf8ToUnicode32(str: seq<Byte>) returns (ok: bool, vec: seq<Rune>)
    ensures ok == Decode(str).ok
    ensures vec == RunesOf(Decode(str).runes)
  {
    hide DecodeRune, DecodeFrom, DecodeTotal, Decode, RunesOf;
    vec := [];
    var i := 0;
    ghost var seen := [];
    DecodeTotalStart(str);
    NoRunes();
    while i < |str|
      invariant i <= |str| && DecodeTotal(str, i, |seen|, seen) == Decode(str)
      invariant vec == RunesOf(seen)
    {
      var stepOk, tmp, next := Utf8Step(str, i);
      DecodeTotalStep(str, i, |seen|, seen);
      if !stepOk {
        return false, vec;
      }
      OneMoreRune(seen, RuneStr(tmp, i, next - i, |seen|, 1));
      seen := seen + [RuneStr(tmp, i, next - i, |seen|, 1)];
      vec := vec + [tmp];
      i := next;
    }
    DecodeTotalEnd(str, |seen|, seen);
    ok := true;
  }

  lemma NoRunes()
    ensures RunesOf([]) == []
  {}

  lemma OneMoreRune(seen: seq<RuneStr>, r: RuneStr)
    ensures RunesOf(seen + [r]) == RunesOf(seen) + [r.rune]
  {}

  // ----- encoding

  function EncodeRune(ui: Rune): seq<Byte> {
    if ui <= 0x7f then [ui as Byte]
    else if ui <= 0x7ff then [Lead(ui / 0x40 % 0x20, 0xc0), Tail(ui)]
    else if ui <= 0xffff then [Lead(ui / 0x1000 % 0x10, 0xe0), Tail(ui / 0x40), Tail(ui)]
    else [Lead(ui / 0x4_0000 % 0x04, 0xf0), Tail(ui / 0x1000), Tail(ui / 0x40), Tail(ui)]
  }

  function Lead(bits: Rune, mark: Byte): Byte
    requires bits < 0x20 && mark < 0xf1 && (mark > 0xc0 ==> bits < 0x10)
  {
    bits as Byte + mark
  }

  function Tail(ui: Rune): Byte { (ui % 0x40) as Byte + 0x80 }

  ghost function EncodeAll(us: seq<Rune>): (pieces: seq<seq<Byte>>)
    ensures |pieces| == |us|
  {
    seq(|us|, i requires 0 <= i < |us| => EncodeRune(us[i]))
  }

  ghost function Encode(us: seq<Rune>): seq<Byte> { Flatten(EncodeAll(us)) }

  method Unicode32ToUtf8(us: seq<Rune>) returns (res: seq<Byte>)
    ensures res == Encode(us)
  {
    res := [];
    for k := 0 to |us|
      invariant res == Encode(us[..k])
    {
      var piece := EncodeRune(us[k]);
      assert EncodeAll(us[..k + 1]) == EncodeAll(us[..k]) + [piece];
      FlattenAppend(EncodeAll(us[..k]), [piece]);
      assert Flatten([piece]) == piece;
      res := res + piece;
    }
    assert us[..|us|] == us;
  }

  const SAFE_RUNES: Rune := 0x100000

  /** What survives the encoder's mask: all of a rune below 0x100000, else its low twenty bits. */
  function Kept(u: Rune): (k: Rune)
    ensures k < SAFE_RUNES
    ensures k == u <==> u < SAFE_RUNES
  {
    u % SAFE_RUNES
  }

  ghost function KeptAll(us: seq<Rune>): seq<Rune> {
    seq(|us|, i requires 0 <= i < |us| => Kept(us[i]))
  }

  lemma TailValue(ui: Rune)
    ensures (Tail(ui) % 0x40) as int == ui as int % 0x40
  {}

  lemma Heads2(u: Rune)
    requires 0x7f < u <= 0x7ff
    ensures var e := EncodeRune(u); |e| == 2 && 0x80 <= e[0] <= 0xdf && Join2(e[0], e[1]) == u
  {
    TailValue(u);
  }

  lemma Heads3(u: Rune)
    requires 0x7ff < u <= 0xffff
    ensures var e := EncodeRune(u); |e| == 3 && 0xdf < e[0] <= 0xef && Join3(e[0], e[1], e[2]) == u
  {
    TailValue(u);
    TailValue(u / 0x40);
    Base64Digits(u as int);
    var e := EncodeRune(u);
    assert (e[0] % 0x10) as int == u as int / 0x1000;
  }

  lemma Heads4(u: Rune)
    requires 0xffff < u
    ensures var e := EncodeRune(u); |e| == 4 && 0xef < e[0] <= 0xf7 && Join4(e[0], e[1], e[2], e[3]) == Kept(u)
  {
    TailValue(u);
    TailValue(u / 0x40);
    TailValue(u / 0x1000);
    Base64Digits(u as int);
    var e := EncodeRune(u);
    assert (e[0] % 0x08) as int == u as int / 0x4_0000 % 4;
    assert Kept(u) as int == u as int % 0x10_0000;
  }

  /** One encoded rune decodes to itself, or, from 0x100000 up, to its low twenty bits. */
  lemma DecodeOneEncoded(u: Rune, rest: seq<Byte>)
    ensures |EncodeRune(u)| > 0
    ensures DecodeRune(EncodeRune(u) + rest) == RuneStrLite(Kept(u), |EncodeRune(u)|)
  {
    hide Join2, Join3, Join4, Lead, Tail;
    if u <= 0x7f {
    } else if u <= 0x7ff {
      Heads2(u);
    } else if u <= 0xffff {
      Heads3(u);
    } else {
      Heads4(u);
    }
    assert forall k :: 0 <= k < |EncodeRune(u)| ==> (EncodeRune(u) + rest)[k] == EncodeRune(u)[k];
  }

  /** The bytes decode to the one rune, whatever follows them. */
  ghost predicate DecodesTo(piece: seq<Byte>, rune: Rune) {
    |piece| > 0 && forall rest :: DecodeRune(piece + rest) == RuneStrLite(rune, |piece|)
  }

  lemma EncodedDecodesTo(u: Rune)
    ensures DecodesTo(EncodeRune(u), Kept(u))
  {
    forall rest
      ensures |EncodeRune(u)| > 0 && DecodeRune(EncodeRune(u) + rest) == RuneStrLite(Kept(u), |EncodeRune(u)|)
    {
      DecodeOneEncoded(u, rest);
    }
  }

  lemma {:induction false} DecodePieces(pieces: seq<seq<Byte>>, kept: seq<Rune>, pre: seq<Byte>, j: nat)
    requires |pieces| == |kept|
    requires forall k :: 0 <= k < |pieces| ==> DecodesTo(pieces[k], kept[k])
    ensures var d := DecodeFrom(pre + Flatten(pieces), |pre|, j);
            d.ok && RunesOf(d.runes) == kept
    decreases |pieces|
  {
    hide DecodeRune;
    var s := pre + Flatten(pieces);
    if pieces == [] {
      assert s == pre;
    } else {
      var e, rest := pieces[0], Flatten(pieces[1..]);
      assert s[|pre|..] == e + rest;
      assert s == (pre + e) + rest;
      assert DecodesTo(pieces[0], kept[0]);
      DecodePieces(pieces[1..], kept[1..], pre + e, j + 1);
      DecodeStep(s, |pre|, j, kept[0], |e|);
    }
  }

  /** Decoding an encoding always succeeds, and returns what survived of each rune. */
  lemma DecodeEncoded(us: seq<Rune>)
    ensures Decode(Encode(us)).ok
    ensures RunesOf(Decode(Encode(us)).runes) == KeptAll(us)
  {
    forall k | 0 <= k < |us|
      ensures DecodesTo(EncodeAll(us)[k], KeptAll(us)[k])
    {
      EncodedDecodesTo(us[k]);
    }
    DecodePieces(EncodeAll(us), KeptAll(us), [], 0);
    assert [] + Encode(us) == Encode(us);
  }

  /**
   The UTF-8 round trip holds exactly when every rune is below 0x100000: the encoder masks the
   lead byte of a four-byte form with 0x03, so the last plane of section 3 of RFC 3629 is lost.
   */
  lemma Utf8RoundTrip(us: seq<Rune>)
    ensures Decode(Encode(us)).ok
    ensures OffsetsTile(Decode(Encode(us)).runes, |Encode(us)|)
    ensures RunesOf(Decode(Encode(us)).runes) == us <==> forall k :: 0 <= k < |us| ==> us[k] < SAFE_RUNES
  {
    DecodeEncoded(us);
    DecodeTiles(Encode(us), 0, 0);
    var rs := KeptAll(us);
    assert forall k :: 0 <= k < |us| ==> (rs[k] == us[k] <==> us[k] < SAFE_RUNES);
  }

  /** The first rune of the last plane does not come back. */
  lemma LastPlaneLost()
    ensures RunesOf(Decode(Encode([0x10_0000])).runes) != [0x10_0000]
  {
    var us: seq<Rune> := [0x10_0000];
    Utf8RoundTrip(us);
    assert us[0] >= SAFE_RUNES;
  }

  /** The three bytes of the rune 0x4e2d, as section 3 of RFC 3629 has them. */
  lemma ThreeByteExample()
    ensures EncodeRune(0x4e2d) == [0xe4, 0xb8, 0xad] && DecodeRune([0xe4, 0xb8, 0xad]) == RuneStrLite(0x4e2d, 3)
  {}
}
