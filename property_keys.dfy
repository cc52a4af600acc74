/**
 * The order in which JavaScript lists the keys of an ordinary object
 * (`Object.entries`, `Object.keys`): OrdinaryOwnPropertyKeys, section
 * 10.1.11.1 of ECMA-262. Keys that are array indices come first, in
 * ascending numeric order; every other string key follows, in the order it
 * was first added. An array index (section 6.1.7 of ECMA-262) is the
 * canonical decimal form of an integer below 2^32 - 1: "0", "7", "42", but
 * not "07", "-1", "1.5" or "4294967295".
 */
module PropertyKeys {
  import opened Sorting

  predicate IsDigit(c: char) {
    '0' <= c <= '9'
  }

  /** The number a string of decimal digits denotes. */
  function DecimalValue(s: string): int
    decreases |s|
  {
    if s == [] then 0 else DecimalValue(s[..|s| - 1]) * 10 + (s[|s| - 1] as int - '0' as int)
  }

  predicate IsArrayIndex(k: string) {
    && |k| > 0
    && (forall i :: 0 <= i < |k| ==> IsDigit(k[i]))
    && (k[0] != '0' || |k| == 1)
    && DecimalValue(k) < 0xFFFF_FFFF
  }

  /** The sort key of an array-index key: its numeric value. */
  function IndexValue(k: string): real {
    DecimalValue(k) as real
  }

  /** The array-index keys, in insertion order. */
  function IndexKeys(keys: seq<string>): seq<string>
    decreases |keys|
  {
    if keys == [] then []
    else (if IsArrayIndex(keys[0]) then [keys[0]] else []) + IndexKeys(keys[1..])
  }

  /** The other keys, in insertion order. */
  function NamedKeys(keys: seq<string>): seq<string>
    decreases |keys|
  {
    if keys == [] then []
    else (if IsArrayIndex(keys[0]) then [] else [keys[0]]) + NamedKeys(keys[1..])
  }

  /** The two filters keep exactly the keys of their kind. */
  lemma {:induction false} KeysMembers(keys: seq<string>)
    ensures forall k :: k in IndexKeys(keys) <==> k in keys && IsArrayIndex(k)
    ensures forall k :: k in NamedKeys(keys) <==> k in keys && !IsArrayIndex(k)
    decreases |keys|
  {
    if keys != [] {
      KeysMembers(keys[1..]);
      assert keys == [keys[0]] + keys[1..];
    }
  }

  /** Every key is either an array index or not, and is kept by exactly one of the two filters. */
  lemma {:induction false} KeysSplit(keys: seq<string>)
    ensures multiset(IndexKeys(keys)) + multiset(NamedKeys(keys)) == multiset(keys)
    decreases |keys|
  {
    if keys != [] {
      var k, rest := keys[0], keys[1..];
      KeysSplit(rest);
      assert multiset(keys) == multiset([k]) + multiset(rest) by {
        assert keys == [k] + rest;
      }
      if IsArrayIndex(k) {
        assert IndexKeys(keys) == [k] + IndexKeys(rest);
        assert NamedKeys(keys) == NamedKeys(rest);
      } else {
        assert IndexKeys(keys) == IndexKeys(rest);
        assert NamedKeys(keys) == [k] + NamedKeys(rest);
      }
    }
  }

  /**
   * The key order of an object whose keys were added in the order
   * `insertion` (each once): the array indices sorted by value, then the
   * rest as inserted. It lists the same keys.
   */
  function OwnKeys(insertion: seq<string>): seq<string> {
    SortBy(IndexKeys(insertion), IndexValue) + NamedKeys(insertion)
  }

  /** The listed keys are the inserted ones, each as often. */
  lemma OwnKeysPermutes(insertion: seq<string>)
    ensures multiset(OwnKeys(insertion)) == multiset(insertion)
    ensures forall k :: k in OwnKeys(insertion) <==> k in insertion
  {
    KeysSplit(insertion);
    var r := OwnKeys(insertion);
    assert forall k :: k in r <==> k in multiset(r);
  }

  lemma {:induction false} NamedKeysConcat(a: seq<string>, b: seq<string>)
    ensures NamedKeys(a + b) == NamedKeys(a) + NamedKeys(b)
    decreases |a|
  {
    if a != [] {
      assert (a + b)[0] == a[0];
      assert (a + b)[1..] == a[1..] + b;
      NamedKeysConcat(a[1..], b);
    } else {
      assert a + b == b;
    }
  }

  lemma {:induction false} NamedKeysOfIndices(keys: seq<string>)
    requires forall k :: k in keys ==> IsArrayIndex(k)
    ensures NamedKeys(keys) == []
    decreases |keys|
  {
    if keys != [] {
      assert keys[0] in keys;
      NamedKeysOfIndices(keys[1..]);
    }
  }

  lemma {:induction false} NamedKeysOfNames(keys: seq<string>)
    requires forall k :: k in keys ==> !IsArrayIndex(k)
    ensures NamedKeys(keys) == keys
    ensures IndexKeys(keys) == []
    decreases |keys|
  {
    if keys != [] {
      assert keys[0] in keys;
      NamedKeysOfNames(keys[1..]);
      assert keys == [keys[0]] + keys[1..];
    }
  }

  /**
   * The listed order: no array index follows another key, the array
   * indices ascend, and the other keys keep their insertion order.
   */
  lemma OwnKeysOrder(insertion: seq<string>)
    ensures var r := OwnKeys(insertion);
            && (forall i, j :: 0 <= i < j < |r| && IsArrayIndex(r[j]) ==> IsArrayIndex(r[i]))
            && (forall i, j :: 0 <= i < j < |r| && IsArrayIndex(r[i]) && IsArrayIndex(r[j]) ==>
                  DecimalValue(r[i]) <= DecimalValue(r[j]))
            && NamedKeys(r) == NamedKeys(insertion)
  {
    var indices := SortBy(IndexKeys(insertion), IndexValue);
    var names := NamedKeys(insertion);
    var r := OwnKeys(insertion);
    KeysMembers(insertion);
    assert forall k :: k in indices ==> IsArrayIndex(k) by {
      forall k | k in indices ensures IsArrayIndex(k) {
        assert k in multiset(indices);
      }
    }
    forall m | |indices| <= m < |r| ensures !IsArrayIndex(r[m]) {
      assert r[m] == names[m - |indices|] && r[m] in names;
    }
    forall i, j | 0 <= i < j < |r| && IsArrayIndex(r[j]) ensures IsArrayIndex(r[i]) {
      assert r[i] == indices[i] && r[i] in indices;
    }
    forall i, j | 0 <= i < j < |r| && IsArrayIndex(r[i]) && IsArrayIndex(r[j])
      ensures DecimalValue(r[i]) <= DecimalValue(r[j])
    {
      assert IndexValue(indices[i]) <= IndexValue(indices[j]);
    }
    NamedKeysConcat(indices, names);
    NamedKeysOfIndices(indices);
    NamedKeysOfNames(names);
  }

  /** With no array-index key, the keys are listed exactly as they were inserted. */
  lemma OwnKeysPlain(insertion: seq<string>)
    requires forall k :: k in insertion ==> !IsArrayIndex(k)
    ensures OwnKeys(insertion) == insertion
  {
    NamedKeysOfNames(insertion);
  }

  /** Keys inserted once each are listed once each. */
  lemma OwnKeysDistinct(insertion: seq<string>)
    requires Distinct(insertion)
    ensures Distinct(OwnKeys(insertion))
  {
    OwnKeysPermutes(insertion);
    PermutationDistinct(OwnKeys(insertion), insertion);
  }

  /** Keys "b", "2", "1" added in that order are listed as "1", "2", "b". */
  lemma IntegerKeysFirst()
    ensures OwnKeys(["b", "2", "1"]) == ["1", "2", "b"]
  {
    SplitExample();
    SortTwoKeys();
  }

  lemma SplitExample()
    ensures IndexKeys(["b", "2", "1"]) == ["2", "1"] && NamedKeys(["b", "2", "1"]) == ["b"]
  {
    SmallKeys();
    var keys := ["b", "2", "1"];
    assert keys[1..] == ["2", "1"] && keys[1..][1..] == ["1"] && keys[1..][1..][1..] == [];
  }

  lemma SmallKeys()
    ensures IsArrayIndex("1") && IsArrayIndex("2") && !IsArrayIndex("b")
  {
    assert "1"[..0] == [] && "2"[..0] == [];
    assert DecimalValue("1") == 1 && DecimalValue("2") == 2;
  }

  lemma SortTwoKeys()
    ensures SortBy(["2", "1"], IndexValue) == ["1", "2"]
  {
    SmallKeys();
    assert "1"[..0] == [] && "2"[..0] == [];
    assert IndexValue("1") == 1.0 && IndexValue("2") == 2.0;
    assert ["2", "1"][..1] == ["2"] && ["2"][..0] == [];
    assert SortBy(["2"], IndexValue) == ["2"];
    assert Insert("1", ["2"], IndexValue) == ["1", "2"];
  }
}
