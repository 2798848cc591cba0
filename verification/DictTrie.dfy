/** The dictionary object of DictTrie.hpp: a trie whose units are stored under their own word. */
module DictTrie {
  import opened Wrappers
  import opened Unicode
  import opened Trie

  /** The floor of every path weight. */
  const MIN_DOUBLE: real := -3.14e100

  /** Every unit sits under its own word, so its word's length is the length of the match. */
  ghost predicate WellKeyed(dict: Dictionary) {
    forall key :: key in dict ==> key != [] && dict[key].word == key
  }

  function Words(units: seq<DictUnit>): (words: seq<seq<Rune>>)
    ensures |words| == |units|
  {
    seq(|units|, i requires 0 <= i < |units| => units[i].word)
  }

  function Pointers(units: seq<DictUnit>): (ptrs: seq<Option<DictUnit>>)
    ensures |ptrs| == |units|
  {
    seq(|units|, i requires 0 <= i < |units| => Some(units[i]))
  }

  lemma {:induction false} UnitsWellKeyed(units: seq<DictUnit>)
    ensures WellKeyed(InsertedAll(Words(units), Pointers(units)))
  {
    if units != [] {
      var n := |units| - 1;
      assert Words(units)[..n] == Words(units[..n]);
      assert Pointers(units)[..n] == Pointers(units[..n]);
      UnitsWellKeyed(units[..n]);
    }
  }

  class DictTrie {
    const trie: Trie
    const minWeight: real
    const userSingles: set<Rune>
    const userDefaultWeight: real

    ghost predicate Valid()
      reads trie, trie.nodes.Values
    {
      trie.Valid() && WellKeyed(trie.dict)
    }

    /** The trie over all units loaded before it is created. */
    constructor (units: seq<DictUnit>, minWeight: real, userDefaultWeight: real, userSingles: set<Rune>)
      requires units != []
      ensures Valid() && fresh(trie) && fresh(trie.nodes.Values)
      ensures this.minWeight == minWeight && this.userSingles == userSingles
      ensures this.userDefaultWeight == userDefaultWeight
      ensures trie.dict == InsertedAll(Words(units), Pointers(units))
    {
      var t := new Trie(Words(units), Pointers(units));
      trie := t;
      this.minWeight, this.userDefaultWeight, this.userSingles := minWeight, userDefaultWeight, userSingles;
      new;
      UnitsWellKeyed(units);
    }

    /** A word that does not decode is refused; any other changes the lookup of that word only. */
    method InsertUserWord(word: seq<Byte>, tag: string) returns (ok: bool)
      requires Valid() && |word| < UINT32_LIMIT
      modifies trie, trie.nodes.Values
      ensures Valid() && fresh(trie.nodes.Values - old(trie.nodes.Values))
      ensures ok == Decode(word).ok
      ensures trie.dict == if !ok then old(trie.dict)
                           else var key := RunesOf(Decode(word).runes);
                                Inserted(old(trie.dict), key, Some(DictUnit(key, userDefaultWeight, tag)))
    {
      var runes;
      ok, runes := DecodeRunesInString(word);
      if !ok {
        return;
      }
      var key := seq(|runes|, i requires 0 <= i < |runes| => runes[i].rune);
      assert key == RunesOf(runes);
      trie.InsertNode(key, Some(DictUnit(key, userDefaultWeight, tag)));
    }
  }
}
