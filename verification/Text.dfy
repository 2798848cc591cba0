/** Searching in text, as std::string and the HTTP helpers do it. */
module Text {
  import opened Wrappers

  /** The first position of a character, or the length of the text. */
  function IndexOf(s: string, d: char): (i: nat)
    ensures i <= |s| && d !in s[..i] && (i < |s| ==> s[i] == d)
  {
    if s == "" || s[0] == d then 0
    else
      var i := IndexOf(s[1..], d) + 1;
      assert s[..i] == [s[0]] + s[1..][..i - 1];
      i
  }

  lemma {:induction false} IndexOfAt(s: string, c: char, i: nat)
    requires i <= |s| && c !in s[..i] && (i < |s| ==> s[i] == c)
    ensures IndexOf(s, c) == i
    decreases i
  {
    if i > 0 {
      assert s[..i][0] == s[0] && s[..i] == [s[0]] + s[1..][..i - 1];
      IndexOfAt(s[1..], c, i - 1);
    }
  }

  // ----- characters

  const CRLF: string := "\r\n"

  /** The value of a hexadecimal digit in either case, or 16 for any other character. */
  function HexValue(c: char): (v: nat)
    ensures v <= 16
  {
    if '0' <= c <= '9' then (c - '0') as nat
    else if 'A' <= c <= 'F' then (c - 'A') as nat + 10
    else if 'a' <= c <= 'f' then (c - 'a') as nat + 10
    else 16
  }

  predicate IsHex(c: char) { HexValue(c) < 16 }

  predicate IsSpace(c: char) { c in {' ', '\t', '\n', '\U{00000B}', '\U{00000C}', '\r'} }

  /** The lower case of a character, as the C locale has it. */
  function ToLower(c: char): char {
    if 'A' <= c <= 'Z' then c - 'A' + 'a' else c
  }

  // ----- searching

  predicate At(s: string, p: string, k: nat) { k + |p| <= |s| && s[k..k + |p|] == p }

  /** The first occurrence of p in s. */
  function Find(s: string, p: string): (r: Option<nat>)
    ensures r.Some? ==> At(s, p, r.value)
  {
    if At(s, p, 0) then Some(0)
    else if s == "" then None
    else
      match Find(s[1..], p)
      case Some(k) =>
        assert s[1..][k..k + |p|] == s[k + 1..k + 1 + |p|];
        Some(k + 1)
      case None => None
  }

  lemma AtTail(s: string, p: string, k: nat)
    requires s != "" && k > 0
    ensures At(s, p, k) <==> At(s[1..], p, k - 1)
  {
    if k + |p| <= |s| {
      assert s[1..][k - 1..k - 1 + |p|] == s[k..k + |p|];
    }
  }

  lemma {:induction false} FindIsFirst(s: string, p: string, q: nat)
    ensures Find(s, p) == Some(q) <==> At(s, p, q) && forall k :: 0 <= k < q ==> !At(s, p, k)
    ensures Find(s, p) == None <==> forall k :: 0 <= k <= |s| ==> !At(s, p, k)
    decreases |s|
  {
    if !At(s, p, 0) && s != "" {
      var t := s[1..];
      forall k: nat | k > 0
        ensures At(s, p, k) <==> At(t, p, k - 1)
      {
        AtTail(s, p, k);
      }
      assert forall k: nat :: At(t, p, k) <==> At(s, p, k + 1);
      FindIsFirst(t, p, if q == 0 then 0 else q - 1);
    }
  }

  // ----- trimming

  predicate IsSpaceOrTab(c: char) { c == ' ' || c == '\t' }

  function TrimLeft(s: string): string {
    if s != "" && IsSpaceOrTab(s[0]) then TrimLeft(s[1..]) else s
  }

  function TrimRight(s: string): string {
    if s != "" && IsSpaceOrTab(s[|s| - 1]) then TrimRight(s[..|s| - 1]) else s
  }

  function TrimCopy(s: string): string { TrimRight(TrimLeft(s)) }

  lemma {:induction false} TrimLeftEnd(s: string)
    ensures TrimLeft(s) == "" || !IsSpaceOrTab(TrimLeft(s)[0])
  {
    if s != "" && IsSpaceOrTab(s[0]) {
      TrimLeftEnd(s[1..]);
    }
  }

  lemma {:induction false} TrimRightEnd(s: string)
    ensures var t := TrimRight(s); t == "" || (t[0] == s[0] && !IsSpaceOrTab(t[|t| - 1]))
    decreases |s|
  {
    if s != "" && IsSpaceOrTab(s[|s| - 1]) {
      TrimRightEnd(s[..|s| - 1]);
    }
  }

  /** What is trimmed has nothing left to trim. */
  lemma TrimTwice(s: string)
    ensures TrimCopy(TrimCopy(s)) == TrimCopy(s)
  {
    TrimLeftEnd(s);
    TrimRightEnd(TrimLeft(s));
  }
}
