/**
 The streaming MD5 of limonp/Md5.hpp (RFC 1321) over an arbitrary block transform: a 64-byte buffer,
 a 64-bit bit counter kept in two 32-bit words, and the padding of the final step.
 */
module Md5 {
  import opened Digits
  import opened Wrappers
  import Unicode

  type Byte = Unicode.Byte
  const TWO_32: int := 0x1_0000_0000
  const TWO_64: int := 0x1_0000_0000_0000_0000
  type UInt4 = x: int | 0 <= x < 0x1_0000_0000

  datatype State = State(a: UInt4, b: UInt4, c: UInt4, d: UInt4)

  const INITIAL: State := State(0x67452301, 0xefcdab89, 0x98badcfe, 0x10325476)

  type Transform = (State, seq<Byte>) -> State

  // ----- words and bytes

  /** The four bytes of a word, low byte first. */
  function WordBytes(x: UInt4): (b: seq<Byte>)
    ensures |b| == 4
  {
    [(x % 0x100) as Byte, (x / 0x100 % 0x100) as Byte, (x / 0x1_0000 % 0x100) as Byte, (x / 0x100_0000 % 0x100) as Byte]
  }

  function BytesWord(b: seq<Byte>): UInt4
    requires |b| == 4
  {
    b[0] as int + b[1] as int * 0x100 + b[2] as int * 0x1_0000 + b[3] as int * 0x100_0000
  }

  ghost function EncodeWords(input: seq<UInt4>): (b: seq<Byte>)
    ensures |b| == 4 * |input|
  {
    if input == [] then [] else EncodeWords(input[..|input| - 1]) + WordBytes(input[|input| - 1])
  }

  ghost function DecodeWords(input: seq<Byte>): (w: seq<UInt4>)
    requires |input| % 4 == 0
    ensures |w| == |input| / 4
  {
    if input == [] then []
    else DecodeWords(input[..|input| - 4]) + [BytesWord(input[|input| - 4..])]
  }

  /** Encode writes word i at byte 4i. */
  method Encode(input: seq<UInt4>, len: nat) returns (output: seq<Byte>)
    requires len == 4 * |input|
    ensures output == EncodeWords(input)
  {
    output := [];
    var i, j := 0, 0;
    while j < len
      invariant j == 4 * i <= len && output == EncodeWords(input[..i])
    {
      var x := input[i];
      output := output + [(x % 0x100) as Byte, (x / 0x100 % 0x100) as Byte,
                          (x / 0x1_0000 % 0x100) as Byte, (x / 0x100_0000 % 0x100) as Byte];
      assert input[..i + 1][..i] == input[..i];
      i, j := i + 1, j + 4;
    }
    assert input[..i] == input;
  }

  lemma NextWord(input: seq<Byte>, j: nat)
    requires j + 4 <= |input| && j % 4 == 0
    ensures DecodeWords(input[..j + 4])
         == DecodeWords(input[..j])
            + [input[j] as int + input[j + 1] as int * 0x100 + input[j + 2] as int * 0x1_0000
               + input[j + 3] as int * 0x100_0000]
  {
    hide DecodeWords;
    assert input[..j + 4] == input[..j] + input[j..j + 4];
    DecodeSnoc(input[..j], input[j..j + 4]);
  }

  method Decode(input: seq<Byte>, len: nat) returns (output: seq<UInt4>)
    requires len == |input| && len % 4 == 0
    ensures output == DecodeWords(input)
  {
    hide DecodeWords;
    assert DecodeWords(input[..0]) == [];
    output := [];
    var i, j := 0, 0;
    while j < len
      invariant j == 4 * i <= len && output == DecodeWords(input[..j])
    {
      var w: UInt4 := input[j] as int + input[j + 1] as int * 0x100 + input[j + 2] as int * 0x1_0000
                      + input[j + 3] as int * 0x100_0000;
      NextWord(input, j);
      output := output + [w];
      i, j := i + 1, j + 4;
    }
    assert input[..j] == input;
  }

  lemma WordRebuilt(x: UInt4)
    ensures BytesWord(WordBytes(x)) == x
  {
    var q1, d := x / 0x100, x % 0x100;
    var q2, c := q1 / 0x100, q1 % 0x100;
    var q3, b := q2 / 0x100, q2 % 0x100;
    DivUnique(x, 0x1_0000, q2, 0x100 * c + d);
    DivUnique(x, 0x100_0000, q3, (0x100 * b + c) * 0x100 + d);
    assert WordBytes(x)[1] as int == c && WordBytes(x)[2] as int == b && WordBytes(x)[3] as int == q3 % 0x100;
  }

  lemma BytesRebuilt(b: seq<Byte>)
    requires |b| == 4
    ensures WordBytes(BytesWord(b)) == b
  {
    var d0, d1, d2, d3 := b[0] as int, b[1] as int, b[2] as int, b[3] as int;
    var x := BytesWord(b);
    DivUnique(x, 0x100, d1 + 0x100 * d2 + 0x1_0000 * d3, d0);
    DivUnique(d1 + 0x100 * d2 + 0x1_0000 * d3, 0x100, d2 + 0x100 * d3, d1);
    DivUnique(x, 0x1_0000, d2 + 0x100 * d3, d0 + 0x100 * d1);
    DivUnique(d2 + 0x100 * d3, 0x100, d3, d2);
    DivUnique(x, 0x100_0000, d3, d0 + 0x100 * d1 + 0x1_0000 * d2);
  }

  lemma DecodeSnoc(b: seq<Byte>, w: seq<Byte>)
    requires |b| % 4 == 0 && |w| == 4
    ensures DecodeWords(b + w) == DecodeWords(b) + [BytesWord(w)]
  {
    assert (b + w)[..|b + w| - 4] == b && (b + w)[|b + w| - 4..] == w;
  }

  lemma {:induction false} DecodeEncodeWords(input: seq<UInt4>)
    ensures DecodeWords(EncodeWords(input)) == input
  {
    hide WordBytes, BytesWord, DecodeWords;
    if input != [] {
      var n := |input| - 1;
      var b, w := EncodeWords(input[..n]), WordBytes(input[n]);
      assert EncodeWords(input) == b + w;
      WordRebuilt(input[n]);
      DecodeEncodeWords(input[..n]);
      DecodeSnoc(b, w);
      assert input == input[..n] + [input[n]];
    }
  }

  // ----- the digest of a whole message, RFC 1321 sections 3.1 to 3.5

  /** The transform folded over all complete blocks. */
  ghost function Fold(f: Transform, st: State, msg: seq<Byte>): State
    decreases |msg|
  {
    if |msg| < 64 then st else Fold(f, f(st, msg[..64]), msg[64..])
  }

  /** The bytes after the last complete block. */
  function Remainder(msg: seq<Byte>): (r: seq<Byte>)
    ensures |r| == |msg| % 64
  {
    msg[|msg| - |msg| % 64..]
  }

  /** Feeding more bytes continues from the state and the remainder. */
  lemma {:induction false} FoldContinues(f: Transform, st: State, msg: seq<Byte>, more: seq<Byte>)
    ensures Fold(f, st, msg + more) == Fold(f, Fold(f, st, msg), Remainder(msg) + more)
    decreases |msg|
  {
    if |msg| >= 64 {
      assert (msg + more)[..64] == msg[..64] && (msg + more)[64..] == msg[64..] + more;
      FoldContinues(f, f(st, msg[..64]), msg[64..], more);
      assert Remainder(msg[64..]) == Remainder(msg);
    } else {
      assert Remainder(msg) == msg;
    }
  }

  lemma RemainderOfSum(msg: seq<Byte>, more: seq<Byte>)
    ensures Remainder(msg + more) == Remainder(Remainder(msg) + more)
  {
    var r := Remainder(msg);
    assert msg + more == msg[..|msg| - |r|] + (r + more);
    assert (|msg| - |r|) % 64 == 0;
    assert (|msg| + |more|) % 64 == (|r| + |more|) % 64;
  }

  /** How many zero bytes follow the 0x80 byte: the least number that makes the length 56 modulo 64. */
  function ZeroCount(len: nat): (z: nat)
    ensures z < 64 && (len + 1 + z) % 64 == 56
  {
    (55 - len % 64) % 64
  }

  ghost function Zeros(n: nat): (z: seq<Byte>)
    ensures |z| == n
  {
    seq(n, _ => 0)
  }

  /** The two words of the bit length modulo 2^64. */
  function CountLow(len: nat): UInt4 { 8 * len % TWO_32 }

  function CountHigh(len: nat): UInt4 { 8 * len / TWO_32 % TWO_32 }

  lemma CountIsBitLength(len: nat)
    ensures CountHigh(len) * TWO_32 + CountLow(len) == 8 * len % TWO_64
  {
    var q := 8 * len / TWO_32;
    DivUnique(8 * len, TWO_64, q / TWO_32, CountHigh(len) * TWO_32 + CountLow(len));
  }

  /** Adding n bytes to the counter words, with the carry detected by comparison. */
  lemma CountStep(len: nat, n: nat)
    requires n < TWO_32
    ensures var low := n * 8 % TWO_32;
            var c0 := (CountLow(len) + low) % TWO_32;
            var carried := if c0 < low then (CountHigh(len) + 1) % TWO_32 else CountHigh(len);
            c0 == CountLow(len + n) && (carried + n / 0x2000_0000) % TWO_32 == CountHigh(len + n)
  {
    var low, h := n * 8 % TWO_32, n / 0x2000_0000;
    DivUnique(n * 8, TWO_32, h, n % 0x2000_0000 * 8);
    var q := 8 * len / TWO_32;
    var sum := CountLow(len) + low;
    var carry := if sum >= TWO_32 then 1 else 0;
    DivUnique(sum, TWO_32, carry, sum - carry * TWO_32);
    DivUnique(8 * (len + n), TWO_32, q + h + carry, sum - carry * TWO_32);
    ModOfSum(q, h + carry);
    ModOfSum(CountHigh(len), 1);
    ModOfSum(CountHigh(len) + carry, h);
  }

  lemma ModOfSum(a: int, b: int)
    requires a >= 0 && b >= 0
    ensures (a + b) % TWO_32 == (a % TWO_32 + b) % TWO_32
  {
    var t := (a % TWO_32 + b) / TWO_32;
    DivUnique(a + b, TWO_32, a / TWO_32 + t, (a % TWO_32 + b) % TWO_32);
  }

  /** The message, one 0x80 byte, zeros, and the bit length modulo 2^64, low word first. */
  ghost function Padded(msg: seq<Byte>): (p: seq<Byte>)
    ensures |p| % 64 == 0
  {
    EightBehind(|msg| + 1 + ZeroCount(|msg|));
    msg + ([0x80] + Zeros(ZeroCount(|msg|))) + EncodeWords([CountLow(|msg|), CountHigh(|msg|)])
  }

  lemma EightBehind(k: nat)
    requires k % 64 == 56
    ensures (k + 8) % 64 == 0
  {}

  ghost function Digest(f: Transform, msg: seq<Byte>): seq<Byte> {
    var st := Fold(f, INITIAL, Padded(msg));
    EncodeWords([st.a, st.b, st.c, st.d])
  }

  // ----- the same, said of the bytes and the states

  /** The number that bytes spell, low byte first. */
  ghost function LowFirst(b: seq<Byte>): nat {
    if b == [] then 0 else b[0] as nat + 0x100 * LowFirst(b[1..])
  }

  /**
   The message, a byte 0x80, as few zero bytes as make whole blocks, and in the last eight bytes, low byte
   first, the length in bits.
   */
  ghost predicate IsPadded(msg: seq<Byte>, p: seq<Byte>) {
    && |p| % 64 == 0 && |msg| + 9 <= |p| < |msg| + 9 + 64
    && p[..|msg|] == msg && p[|msg|] == 0x80
    && (forall k :: |msg| < k < |p| - 8 ==> p[k] == 0)
    && LowFirst(p[|p| - 8..]) == 8 * |msg| % 0x1_0000_0000_0000_0000
  }

  /** The states between the blocks of p, one block after the other. */
  ghost predicate Chain(f: Transform, sts: seq<State>, p: seq<Byte>) {
    && |sts| == |p| / 64 + 1
    && forall k :: 0 <= k < |p| / 64 ==> sts[k + 1] == f(sts[k], p[64 * k..64 * k + 64])
  }

  /** The digest: the last state of the padded message, word by word with the low byte first. */
  ghost predicate IsDigest(f: Transform, msg: seq<Byte>, digest: seq<Byte>) {
    |digest| == 16 && exists p: seq<Byte>, sts: seq<State> ::
      && IsPadded(msg, p) && Chain(f, sts, p)
      && sts[0] == State(0x67452301, 0xefcdab89, 0x98badcfe, 0x10325476)
      && var last := sts[|sts| - 1];
         && LowFirst(digest[0..4]) == last.a && LowFirst(digest[4..8]) == last.b
         && LowFirst(digest[8..12]) == last.c && LowFirst(digest[12..16]) == last.d
  }

  lemma FourBytes(x: UInt4)
    ensures LowFirst(WordBytes(x)) == x
  {
    hide BytesWord;
    var b := WordBytes(x);
    WordRebuilt(x);
    LowFirstOfFour(b);
  }

  lemma LowFirstOfFour(b: seq<Byte>)
    requires |b| == 4
    ensures LowFirst(b) == BytesWord(b)
  {
    LowFirstSum(b, []);
    assert b + [] == b;
  }

  lemma LowFirstSum(a: seq<Byte>, b: seq<Byte>)
    requires |a| == 4
    ensures LowFirst(a + b) == BytesWord(a) + TWO_32 * LowFirst(b)
  {
    var s := a + b;
    var s1, s2, s3 := s[1..], s[2..], s[3..];
    assert s1[1..] == s2 && s2[1..] == s3 && s3[1..] == b;
    assert LowFirst(s3) == a[3] as nat + 0x100 * LowFirst(b);
    assert LowFirst(s2) == a[2] as nat + 0x100 * LowFirst(s3);
    assert LowFirst(s1) == a[1] as nat + 0x100 * LowFirst(s2);
    assert LowFirst(s) == a[0] as nat + 0x100 * LowFirst(s1);
  }

  lemma TwoWords(x: UInt4, y: UInt4)
    ensures EncodeWords([x, y]) == WordBytes(x) + WordBytes(y)
  {
    assert [x, y][..1] == [x] && [x][..0] == [];
    assert EncodeWords([x]) == EncodeWords([]) + WordBytes(x) == WordBytes(x);
  }

  lemma PaddedExact(msg: seq<Byte>)
    ensures IsPadded(msg, Padded(msg))
  {
    hide WordBytes, CountLow, CountHigh;
    var p, n := Padded(msg), |msg|;
    var low, high := CountLow(n), CountHigh(n);
    TwoWords(low, high);
    FourBytes(low);
    FourBytes(high);
    LowFirstSum(WordBytes(low), WordBytes(high));
    LowFirstOfFour(WordBytes(low));
    CountIsBitLength(n);
    assert p[|p| - 8..] == WordBytes(low) + WordBytes(high);
  }

  lemma {:induction false} FoldChain(f: Transform, st: State, msg: seq<Byte>) returns (sts: seq<State>)
    requires |msg| % 64 == 0
    ensures Chain(f, sts, msg) && sts[0] == st && sts[|sts| - 1] == Fold(f, st, msg)
    decreases |msg|
  {
    if msg == [] {
      sts := [st];
    } else {
      var rest := FoldChain(f, f(st, msg[..64]), msg[64..]);
      sts := [st] + rest;
      forall k | 0 <= k < |msg| / 64
        ensures sts[k + 1] == f(sts[k], msg[64 * k..64 * k + 64])
      {
        if k > 0 {
          var m := k - 1;
          assert msg[64..][64 * m..64 * m + 64] == msg[64 * k..64 * k + 64];
          assert rest[m + 1] == f(rest[m], msg[64..][64 * m..64 * m + 64]);
        }
      }
    }
  }

  lemma FourWords(a: UInt4, b: UInt4, c: UInt4, d: UInt4)
    ensures EncodeWords([a, b, c, d]) == ((WordBytes(a) + WordBytes(b)) + WordBytes(c)) + WordBytes(d)
  {
    hide WordBytes;
    var ws: seq<UInt4> := [a, b, c, d];
    assert ws[..3] == [a, b, c] && [a, b, c][..2] == [a, b];
    TwoWords(a, b);
  }

  lemma DigestExact(f: Transform, msg: seq<Byte>)
    ensures IsDigest(f, msg, Digest(f, msg))
  {
    hide IsPadded, Padded, WordBytes, Fold, Chain, LowFirst;
    var p := Padded(msg);
    PaddedExact(msg);
    var sts := FoldChain(f, INITIAL, p);
    var st, d := Fold(f, INITIAL, p), Digest(f, msg);
    FourWords(st.a, st.b, st.c, st.d);
    FourBytes(st.a);
    FourBytes(st.b);
    FourBytes(st.c);
    FourBytes(st.d);
    assert d[0..4] == WordBytes(st.a) && d[4..8] == WordBytes(st.b);
    assert d[8..12] == WordBytes(st.c) && d[12..16] == WordBytes(st.d);
  }

  /** The initial state is the bytes 01 23 .. ef fe .. 10. */
  lemma InitialBytes()
    ensures EncodeWords([INITIAL.a, INITIAL.b, INITIAL.c, INITIAL.d])
         == [0x01, 0x23, 0x45, 0x67, 0x89, 0xab, 0xcd, 0xef, 0xfe, 0xdc, 0xba, 0x98, 0x76, 0x54, 0x32, 0x10]
  {
    hide EncodeWords, WordBytes;
    FourWords(INITIAL.a, INITIAL.b, INITIAL.c, INITIAL.d);
    BytesRebuilt([0x01, 0x23, 0x45, 0x67]);
    BytesRebuilt([0x89, 0xab, 0xcd, 0xef]);
    BytesRebuilt([0xfe, 0xdc, 0xba, 0x98]);
    BytesRebuilt([0x76, 0x54, 0x32, 0x10]);
  }


  // ----- the 32-bit loop guard

  predicate Guard32(i: nat, n: nat) { (i + 63) % TWO_32 < n }

  /** The loop's guard agrees with the intended one on every index it can meet exactly when no index wraps. */
  lemma GuardExact(index: nat, n: nat)
    requires index < 64 && n < TWO_32
    ensures (forall k: nat :: 64 - index + 64 * k <= n ==>
               (Guard32(64 - index + 64 * k, n) <==> 64 - index + 64 * k + 63 < n))
        <==> NoWrap(index, n)
  {
    if !NoWrap(index, n) {
      var k := 0x3ff_ffff;
      assert 64 - index + 64 * k <= n;
      assert Guard32(64 - index + 64 * k, n);
    }
  }

  /** What an update requires of its length: the buffered bytes and the input together stay below 2^32. */
  predicate NoWrap(index: nat, n: nat) { index == 0 || index + n < TWO_32 }

  /** The index of the loop after j rounds, in 32 bits. */
  function WrappedAt(index: nat, j: nat): (i: nat)
    requires index < 64
    ensures i < TWO_32
  {
    (64 - index + 64 * j) % TWO_32
  }

  /** The loop goes on for k rounds and stops then. */
  ghost predicate StopsAfter(index: nat, n: nat, k: nat)
    requires index < 64
  {
    (forall j :: 0 <= j < k ==> Guard32(WrappedAt(index, j), n)) && !Guard32(WrappedAt(index, k), n)
  }

  /** Where the loop should stop: fewer than 64 bytes are left. */
  function IntendedEnd(index: nat, n: nat): int { n - (index + n) % 64 }

  /** The loop over the whole blocks stops exactly when no index wraps, and then stops where it should. */
  lemma LoopStopsIff(index: nat, n: nat)
    requires index < 64 && 64 - index <= n < TWO_32
    ensures NoWrap(index, n) <==> exists k: nat :: StopsAfter(index, n, k)
    ensures forall k: nat :: StopsAfter(index, n, k) ==> WrappedAt(index, k) == IntendedEnd(index, n)
  {
    if NoWrap(index, n) {
      StopsWhereIntended(index, n);
      var k: nat := (index + n) / 64 - 1;
      forall m: nat | StopsAfter(index, n, m)
        ensures m == k
      {
        assert !(m < k) && !(k < m);
      }
    } else {
      forall k: nat
        ensures Guard32(WrappedAt(index, k), n)
      {
        NeverStops(index, n, k);
      }
    }
  }

  lemma StopsWhereIntended(index: nat, n: nat)
    requires index < 64 && 64 - index <= n < TWO_32 && NoWrap(index, n)
    ensures var k: int := (index + n) / 64 - 1;
            k >= 0 && StopsAfter(index, n, k) && WrappedAt(index, k) == IntendedEnd(index, n)
  {
    var k: nat := (index + n) / 64 - 1;
    forall j | 0 <= j < k
      ensures Guard32(WrappedAt(index, j), n)
    {
      SmallIndex(64 - index + 64 * j);
      SmallIndex(64 - index + 64 * j + 63);
    }
    SmallIndex(64 - index + 64 * k);
    SmallIndex(64 - index + 64 * k + 63);
  }

  lemma SmallIndex(i: nat)
    requires i < TWO_32
    ensures i % TWO_32 == i
  {
    DivUnique(i, TWO_32, 0, i);
  }

  /** The index runs through the multiples of 64 less the buffered bytes, all of them past the input's end. */
  lemma NeverStops(index: nat, n: nat, k: nat)
    requires index < 64 && n < TWO_32 && !NoWrap(index, n)
    ensures Guard32(WrappedAt(index, k), n)
  {
    var q, m := k / 0x400_0000, k % 0x400_0000 + 1;
    var i := 64 * m - index;
    DivUnique(64 - index + 64 * k, TWO_32, q, i);
    if m < 0x400_0000 {
      SmallIndex(i + 63);
    } else {
      DivUnique(i + 63, TWO_32, 1, 63 - index);
    }
  }

  /** With one byte buffered, an input of 2^32 - 1 bytes makes the loop run for ever. */
  lemma LongestInputNeverStops()
    ensures !exists k: nat :: StopsAfter(1, 0xffff_ffff, k)
  {
    LoopStopsIff(1, 0xffff_ffff);
  }

  // ----- the streaming object

  class MD5 {
    const transform: Transform
    var state: State
    var count0: UInt4
    var count1: UInt4
    const buffer: array<Byte>
    var digestRaw: seq<Byte>
    /** Every byte fed since the last Init. */
    ghost var message: seq<Byte>

    ghost predicate Valid()
      reads this, buffer
    {
      && buffer.Length == 64
      && state == Fold(transform, INITIAL, message)
      && buffer[..|message| % 64] == Remainder(message)
      && count0 == CountLow(|message|) && count1 == CountHigh(|message|)
    }

    constructor (transform: Transform)
      ensures Valid() && message == [] && fresh(buffer) && this.transform == transform
    {
      this.transform := transform;
      buffer := new Byte[64](_ => 0);
      digestRaw := [];
      new;
      Init();
    }

    method Init()
      requires buffer.Length == 64
      modifies this
      ensures Valid() && message == []
    {
      count0, count1 := 0, 0;
      state := INITIAL;
      message := [];
    }

    /** The two counter words after n more bytes. */
    method AddCount(n: nat, ghost len: nat)
      requires n < TWO_32 && count0 == CountLow(len) && count1 == CountHigh(len)
      modifies this`count0, this`count1
      ensures count0 == CountLow(len + n) && count1 == CountHigh(len + n)
    {
      CountStep(len, n);
      var low := n * 8 % TWO_32;
      count0 := (count0 + low) % TWO_32;
      if count0 < low {
        count1 := (count1 + 1) % TWO_32;
      }
      count1 := (count1 + n / 0x2000_0000) % TWO_32;
    }

    /** Feeding bytes keeps state, buffer and counter in step with everything fed so far. */
    method Update(input: seq<Byte>)
      requires Valid() && |input| < TWO_32 && NoWrap(|message| % 64, |input|)
      modifies this`state, this`count0, this`count1, this`message, buffer
      ensures Valid() && message == old(message) + input
    {
      hide Remainder, Fold, CountLow, CountHigh, NoWrap;
      ghost var rem := Remainder(message);
      IndexFromCount(|message|);
      FoldContinues(transform, INITIAL, message, input);
      RemainderOfSum(message, input);
      var index := count0 / 8 % 64;
      AddCount(|input|, |message|);
      Absorb(input, index, rem);
      message := message + input;
    }

    /** The buffered bytes and the input: complete blocks go into the state, the rest into the buffer. */
    method Absorb(input: seq<Byte>, index: nat, ghost rem: seq<Byte>)
      requires buffer.Length == 64 && index < 64 && |rem| == index && buffer[..index] == rem
      requires |input| < TWO_32 && NoWrap(index, |input|)
      modifies this`state, buffer
      ensures state == Fold(transform, old(state), rem + input)
      ensures buffer[..|Remainder(rem + input)|] == Remainder(rem + input)
    {
      hide Remainder, Fold, NoWrap;
      var partLen := 64 - index;
      var i, at := 0, index;
      if |input| >= partLen {
        i := Blocks(input, index, rem);
        at := 0;
      } else {
        FoldShort(transform, state, rem + input);
      }
      CopyTail(input, i, at);
    }

    /** Padding, then the length from before the padding: exactly the padded message, with nothing left over. */
    method Final()
      requires Valid()
      modifies this, buffer
      ensures digestRaw == Digest(transform, old(message)) && IsDigest(transform, old(message), digestRaw)
      ensures state == State(0, 0, 0, 0) && count0 == count1 == 0 && buffer[..] == Zeros(buffer.Length)
    {
      ghost var m := message;
      var bits := Encode([count0, count1], 8);
      IndexFromCount(|m|);
      var index := count0 / 8 % 64;
      var padLen := if index < 56 then 56 - index else 120 - index;
      PaddingPrefix(|m|);
      Update(PADDING[..padLen]);
      Update(bits);
      assert message == Padded(m);
      DigestExact(transform, m);
      digestRaw := Encode([state.a, state.b, state.c, state.d], 16);
      state, count0, count1 := State(0, 0, 0, 0), 0, 0;
      forall k | 0 <= k < buffer.Length {
        buffer[k] := 0;
      }
    }

    /** However a message is cut, its digest is the same. */
    method DigestChunks(chunks: seq<seq<Byte>>)
      requires buffer.Length == 64 && forall k :: 0 <= k < |chunks| ==> |chunks[k]| <= TWO_32 - 64
      modifies this, buffer
      ensures digestRaw == Digest(transform, Flatten(chunks)) && IsDigest(transform, Flatten(chunks), digestRaw)
    {
      Init();
      for k := 0 to |chunks|
        invariant Valid() && message == Flatten(chunks[..k])
      {
        Update(chunks[k]);
        assert chunks[..k + 1] == chunks[..k] + [chunks[k]];
        FlattenAppend(chunks[..k], [chunks[k]]);
        assert Flatten([chunks[k]]) == chunks[k] + Flatten([]);
      }
      assert chunks[..|chunks|] == chunks;
      Final();
    }

    /** The final copy of the bytes that complete no block. */
    method CopyTail(input: seq<Byte>, i: nat, index: nat)
      requires buffer.Length == 64 && i <= |input| && index + |input| - i < 64
      modifies buffer
      ensures buffer[..index + |input| - i] == old(buffer[..index]) + input[i..]
    {
      forall k | 0 <= k < |input| - i {
        buffer[index + k] := input[i + k];
      }
    }

    /** The branch that completes a block: the buffered one, then whole blocks straight from the input. */
    method Blocks(input: seq<Byte>, index: nat, ghost rem: seq<Byte>) returns (i: nat)
      requires buffer.Length == 64 && index < 64 && |rem| == index && buffer[..index] == rem
      requires 64 - index <= |input| < TWO_32 && NoWrap(index, |input|)
      modifies this`state, buffer
      ensures i <= |input| && input[i..] == Remainder(rem + input)
      ensures state == Fold(transform, old(state), rem + input)
    {
      hide Fold, Remainder;
      var partLen := 64 - index;
      ghost var start := state;
      forall k | 0 <= k < partLen {
        buffer[index + k] := input[k];
      }
      BlockFilled(rem, input, buffer[..]);
      FirstBlock(transform, start, rem + input);
      state := transform(state, buffer[..]);
      i := WholeBlocks(input, partLen, index);
      TailIsRemainder(rem, input, i);
    }

    /** The loop over the blocks that are taken straight from the input. */
    method WholeBlocks(input: seq<Byte>, from: nat, ghost index: nat) returns (i: nat)
      requires index < 64 && from == 64 - index <= |input| < TWO_32 && NoWrap(index, |input|)
      modifies this`state
      ensures i <= |input| < i + 64 && (index + i) % 64 == 0
      ensures state == Fold(transform, old(state), input[from..])
    {
      hide Fold;
      ghost var start := state;
      i := from;
      while Guard32(i, |input|)
        invariant from <= i <= |input| && (index + i) % 64 == 0
        invariant Fold(transform, start, input[from..]) == Fold(transform, state, input[i..])
        decreases |input| - i
      {
        GuardIntended(index, i, |input|);
        NextBlock(transform, state, input, i);
        state := transform(state, input[i..i + 64]);
        i := i + 64;
      }
      GuardIntended(index, i, |input|);
      FoldShort(transform, state, input[i..]);
    }
  }

  /** On the indices that the loop meets, the guard says that a whole block is left. */
  lemma GuardIntended(index: nat, i: nat, n: nat)
    requires index < 64 && i <= n < TWO_32 && (index + i) % 64 == 0 && NoWrap(index, n)
    ensures Guard32(i, n) <==> i + 64 <= n
  {
    var b := (index + i) / 64;
    assert index + i == 64 * b;
    if i + 63 < TWO_32 {
      SmallIndex(i + 63);
    }
  }

  lemma BlockFilled(rem: seq<Byte>, input: seq<Byte>, block: seq<Byte>)
    requires |rem| < 64 && 64 - |rem| <= |input| && |block| == 64
    requires block[..|rem|] == rem && forall k :: 0 <= k < 64 - |rem| ==> block[|rem| + k] == input[k]
    ensures block == (rem + input)[..64] && (rem + input)[64..] == input[64 - |rem|..]
  {}

  lemma FirstBlock(f: Transform, st: State, msg: seq<Byte>)
    requires |msg| >= 64
    ensures Fold(f, st, msg) == Fold(f, f(st, msg[..64]), msg[64..])
  {}

  lemma NextBlock(f: Transform, st: State, input: seq<Byte>, i: nat)
    requires i + 64 <= |input|
    ensures Fold(f, st, input[i..]) == Fold(f, f(st, input[i..i + 64]), input[i + 64..])
  {
    assert input[i..][..64] == input[i..i + 64] && input[i..][64..] == input[i + 64..];
  }

  lemma TailIsRemainder(rem: seq<Byte>, input: seq<Byte>, i: nat)
    requires i <= |input| < i + 64 && (|rem| + i) % 64 == 0
    ensures input[i..] == Remainder(rem + input)
  {
    var all, t := rem + input, |input| - i;
    DivUnique(|all|, 64, (|rem| + i) / 64, t);
    assert all[|all| - t..] == input[i..];
  }

  /** One 0x80 byte and 63 zero bytes. */
  const PADDING: seq<Byte> := [0x80] + seq(63, _ => 0)

  lemma PaddingPrefix(len: nat)
    ensures var index := len % 64;
            var padLen := if index < 56 then 56 - index else 120 - index;
            PADDING[..padLen] == [0x80] + Zeros(ZeroCount(len))
  {}

  lemma IndexFromCount(len: nat)
    ensures CountLow(len) / 8 % 64 == len % 64
  {
    var q := 8 * len / TWO_32;
    assert CountLow(len) == 8 * len - q * TWO_32;
    DivUnique(CountLow(len), 8, len - q * 0x2000_0000, 0);
    DivUnique(len - q * 0x2000_0000, 64, len / 64 - q * 0x80_0000, len % 64);
  }

  lemma FoldShort(f: Transform, st: State, msg: seq<Byte>)
    requires |msg| < 64
    ensures Fold(f, st, msg) == st && Remainder(msg) == msg
  {}
}
