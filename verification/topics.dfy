/**
  The records the topic monitor keeps, one per topic, and the delta message a
  live viewer receives on each tick.
 */
module Topics {

  /** Rust's `u64`: payload sizes and millisecond timestamps. */
  newtype uint64 = x: int | 0 <= x < 0x1_0000_0000_0000_0000

  datatype Option<T> = None | Some(value: T)

  /**
    The latest observation of one topic. Dafny's structural equality on this
    datatype is the derived field-wise `PartialEq` of the source: two records
    are equal exactly when all four fields are.
   */
  datatype TopicData = TopicData(
    keyExpr: string,
    lastDataSizeBytes: uint64,
    receivedTimestamp: uint64,
    decodedContent: Option<string>)

  /** The message pushed to a viewer: records added or changed, keys gone. */
  datatype DeltaUpdate = DeltaUpdate(updated: seq<TopicData>, removed: seq<string>)

  /** The topic cache, and every snapshot of it: topic key to latest record. */
  type Cache = map<string, TopicData>

  /** Every entry is filed under its own record's key expression. */
  predicate WellKeyed(cache: Cache) {
    forall k :: k in cache ==> cache[k].keyExpr == k
  }

  predicate NoDuplicates<T(==)>(s: seq<T>) {
    forall i, j :: 0 <= i < j < |s| ==> s[i] != s[j]
  }

  function Elements<T>(s: seq<T>): set<T> {
    set x | x in s
  }

  /** The key expressions of a sequence of records, in the same order. */
  function KeysOf(records: seq<TopicData>): (keys: seq<string>)
    ensures |keys| == |records|
    ensures forall i :: 0 <= i < |records| ==> keys[i] == records[i].keyExpr
  {
    if records == [] then [] else [records[0].keyExpr] + KeysOf(records[1..])
  }

  lemma KeysOfSuffix(records: seq<TopicData>, i: nat)
    requires i <= |records|
    ensures KeysOf(records[i..]) == KeysOf(records)[i..]
  {
  }

  lemma ElementsAppend<T>(s: seq<T>, x: T)
    ensures Elements(s + [x]) == Elements(s) + {x}
  {
    assert forall y :: y in s + [x] <==> y in s || y == x;
  }

  /** Appending a new element keeps a sequence free of repetitions. */
  lemma NoDuplicatesAppend<T>(s: seq<T>, x: T)
    requires NoDuplicates(s) && x !in s
    ensures NoDuplicates(s + [x])
  {
    forall i, j | 0 <= i < j < |s + [x]| ensures (s + [x])[i] != (s + [x])[j] {
      if j == |s| {
        assert (s + [x])[i] == s[i];
      } else {
        assert (s + [x])[i] == s[i] && (s + [x])[j] == s[j];
      }
    }
  }

  /** Removing the head of a repetition-free sequence leaves one, without the head in it. */
  lemma NoDuplicatesTail<T>(s: seq<T>)
    requires NoDuplicates(s) && s != []
    ensures NoDuplicates(s[1..])
    ensures s[0] !in s[1..]
  {
    forall i, j | 0 <= i < j < |s[1..]| ensures s[1..][i] != s[1..][j] {
      assert s[1..][i] == s[i + 1] && s[1..][j] == s[j + 1];
    }
    forall j | 0 <= j < |s[1..]| ensures s[1..][j] != s[0] {
      assert s[1..][j] == s[j + 1];
    }
  }

  /** A sequence without repetitions has as many distinct elements as entries. */
  lemma {:induction false} NoDuplicatesCardinality<T>(s: seq<T>)
    requires NoDuplicates(s)
    ensures |Elements(s)| == |s|
  {
    if s != [] {
      NoDuplicatesTail(s);
      NoDuplicatesCardinality(s[1..]);
      assert Elements(s) == {s[0]} + Elements(s[1..]);
    }
  }

  /** In a sequence without repetitions every element occurs exactly once. */
  lemma {:induction false} NoDuplicatesOccurOnce<T>(s: seq<T>, x: T)
    requires NoDuplicates(s)
    ensures multiset(s)[x] == if x in s then 1 else 0
  {
    if s != [] {
      assert s == [s[0]] + s[1..];
      NoDuplicatesTail(s);
      NoDuplicatesOccurOnce(s[1..], x);
      assert multiset(s) == multiset([s[0]]) + multiset(s[1..]);
    }
  }

  /** Two repetition-free sequences with the same elements are permutations of each other. */
  lemma SameElementsPermutation<T>(s: seq<T>, t: seq<T>)
    requires NoDuplicates(s) && NoDuplicates(t)
    requires Elements(s) == Elements(t)
    ensures multiset(s) == multiset(t)
  {
    forall x ensures multiset(s)[x] == multiset(t)[x] {
      NoDuplicatesOccurOnce(s, x);
      NoDuplicatesOccurOnce(t, x);
      assert x in s <==> x in Elements(t);
    }
  }

  /** Records with distinct key expressions are themselves distinct. */
  lemma DistinctKeysDistinctRecords(records: seq<TopicData>)
    requires NoDuplicates(KeysOf(records))
    ensures NoDuplicates(records)
  {
    forall i, j | 0 <= i < j < |records| ensures records[i] != records[j] {
      assert KeysOf(records)[i] != KeysOf(records)[j];
    }
  }
}
