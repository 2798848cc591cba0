/** The cursor of PreFilter.hpp, which cuts a sentence at its separator runes before segmentation. */
module PreFilter {
  import opened Unicode

  datatype Range = Range(begin: nat, end: nat)

  predicate NotIn(symbols: set<Rune>, x: Rune) { x !in symbols }

  /** Where the range that starts at cursor ends: after one separator, or before the next one. */
  ghost function NextEnd(symbols: set<Rune>, runes: seq<RuneStr>, cursor: nat): (end: nat)
    requires cursor < |runes|
    ensures cursor < end <= |runes|
  {
    if runes[cursor].rune in symbols then cursor + 1
    else RunEnd(x => NotIn(symbols, x), runes, cursor + 1, |runes|)
  }

  /** The range is a single separator, or the longest stretch without any. */
  lemma NextEndExact(symbols: set<Rune>, runes: seq<RuneStr>, cursor: nat, end: nat)
    requires cursor < end <= |runes|
    ensures end == NextEnd(symbols, runes, cursor) <==>
              if runes[cursor].rune in symbols then end == cursor + 1
              else
                && (forall k :: cursor <= k < end ==> runes[k].rune !in symbols)
                && (end < |runes| ==> runes[end].rune in symbols)
  {
    RunEndIsMaximal(x => NotIn(symbols, x), runes, cursor + 1, end, |runes|);
  }

  /** [a, b) is a separator alone, or a stretch without any that cannot be extended, not looking before `from`. */
  ghost predicate IsFilterRange(symbols: set<Rune>, runes: seq<RuneStr>, from: nat, a: nat, b: nat) {
    && from <= a < b <= |runes|
    && if runes[a].rune in symbols then b == a + 1
       else
         && (forall k :: a <= k < b ==> runes[k].rune !in symbols)
         && (a > from ==> runes[a - 1].rune in symbols) && (b < |runes| ==> runes[b].rune in symbols)
  }

  /** The range at the cursor is one of these, and every other one lies behind it. */
  lemma FilterRangeNext(symbols: set<Rune>, runes: seq<RuneStr>, cursor: nat, a: nat, b: nat)
    requires cursor < |runes| && IsFilterRange(symbols, runes, cursor, a, b)
    ensures var end := NextEnd(symbols, runes, cursor);
            (a == cursor && b == end) || IsFilterRange(symbols, runes, end, a, b)
  {
    var end := NextEnd(symbols, runes, cursor);
    NextEndExact(symbols, runes, cursor, end);
    if a == cursor {
      NextEndExact(symbols, runes, cursor, b);
    }
  }

  class PreFilter {
    const symbols: set<Rune>
    const sentence: seq<RuneStr>
    var cursor: nat

    ghost predicate Valid()
      reads this
    {
      cursor <= |sentence|
    }

    /** A sentence that does not decode leaves the filter without ranges. */
    constructor (symbols: set<Rune>, s: seq<Byte>)
      requires |s| < UINT32_LIMIT
      ensures Valid() && cursor == 0 && this.symbols == symbols
      ensures sentence == if Decode(s).ok then Decode(s).runes else []
    {
      var ok, runes := DecodeRunesInString(s);
      this.symbols := symbols;
      sentence := runes;
      cursor := 0;
    }

    predicate HasNext()
      reads this
    {
      cursor != |sentence|
    }

    /** Each call starts where the last one ended and, while there is a next range, moves forward. */
    method Next() returns (range: Range)
      requires Valid()
      modifies this`cursor
      ensures Valid() && cursor == range.end && range.begin == old(cursor)
      ensures range.end == if old(HasNext()) then NextEnd(symbols, sentence, old(cursor)) else old(cursor)
    {
      var begin := cursor;
      ghost var free := x => NotIn(symbols, x);
      while cursor != |sentence|
        invariant begin <= cursor <= |sentence|
        invariant begin < cursor ==> sentence[begin].rune !in symbols
        invariant begin < cursor ==>
                    RunEnd(free, sentence, begin + 1, |sentence|) == RunEnd(free, sentence, cursor, |sentence|)
        decreases |sentence| - cursor
      {
        if sentence[cursor].rune in symbols {
          if begin == cursor {
            cursor := cursor + 1;
          }
          return Range(begin, cursor);
        }
        cursor := cursor + 1;
      }
      return Range(begin, |sentence|);
    }
  }
}
