/**
 * The story's records and the one ordering the application applies to them:
 * a stable sort by a numeric key, largest first, as `Array.prototype.sort`
 * with the comparator `(a, b) => key(b) - key(a)` produces it.
 */
module Story {
  import opened JsText

  /** A contributed sentence; `createdAt` is its `Date` as milliseconds since the epoch. */
  datatype Sentence = Sentence(text: JsString, createdAt: int, deviceIdentifier: JsString)

  function CreatedAt(s: Sentence): int { s.createdAt }

  /** Sorting by this key, largest first, is sorting by `createdAt`, oldest first. */
  function CreatedAtNegated(s: Sentence): int { -s.createdAt }

  /** The texts of the sentences, in list order (`sentences.map(s => s.text)`). */
  function Texts(ss: seq<Sentence>): (r: seq<JsString>)
    ensures |r| == |ss|
    ensures forall i :: 0 <= i < |ss| ==> r[i] == ss[i].text
  {
    seq(|ss|, i requires 0 <= i < |ss| => ss[i].text)
  }

  predicate SortedDescBy(ss: seq<Sentence>, key: Sentence -> int) {
    forall i, j :: 0 <= i < j < |ss| ==> key(ss[i]) >= key(ss[j])
  }

  /**
   * Puts `x` in front of the first element whose key is not larger than its
   * own, so that `x` stays ahead of the equal keys that followed it.
   */
  function InsertBy(x: Sentence, sorted: seq<Sentence>, key: Sentence -> int): (r: seq<Sentence>)
    requires SortedDescBy(sorted, key)
    ensures SortedDescBy(r, key)
    ensures multiset(r) == multiset(sorted) + multiset{x}
  {
    if sorted == [] || key(x) >= key(sorted[0]) then [x] + sorted
    else
      var tail := InsertBy(x, sorted[1..], key);
      InsertBehind(x, sorted, tail, key);
      [sorted[0]] + tail
  }

  /** Putting the head back in front of the insertion into the rest keeps the order. */
  lemma InsertBehind(x: Sentence, sorted: seq<Sentence>, tail: seq<Sentence>, key: Sentence -> int)
    requires sorted != [] && key(x) < key(sorted[0])
    requires SortedDescBy(sorted, key)
    requires SortedDescBy(tail, key)
    requires multiset(tail) == multiset(sorted[1..]) + multiset{x}
    ensures SortedDescBy([sorted[0]] + tail, key)
    ensures multiset([sorted[0]] + tail) == multiset(sorted) + multiset{x}
  {
    var rest := sorted[1..];
    assert sorted == [sorted[0]] + rest;
    assert multiset(rest + [x]) == multiset(rest) + multiset{x};
    KeysBounded(tail, rest + [x], key, key(sorted[0]));
    var r := [sorted[0]] + tail;
    forall i, j | 0 <= i < j < |r| ensures key(r[i]) >= key(r[j]) {
      if i == 0 {
        assert r[j] == tail[j - 1];
      } else {
        assert r[i] == tail[i - 1] && r[j] == tail[j - 1];
      }
    }
  }

  /** A permutation of a list whose keys are at most `bound` has keys at most `bound`. */
  lemma KeysBounded(a: seq<Sentence>, b: seq<Sentence>, key: Sentence -> int, bound: int)
    requires multiset(a) == multiset(b)
    requires forall i :: 0 <= i < |b| ==> key(b[i]) <= bound
    ensures forall i :: 0 <= i < |a| ==> key(a[i]) <= bound
  {
    forall i | 0 <= i < |a| ensures key(a[i]) <= bound {
      assert a[i] in multiset(b);
      var m :| 0 <= m < |b| && b[m] == a[i];
    }
  }

  /** The stable sort, largest key first: ordered, and a permutation of its input. */
  function SortDescBy(ss: seq<Sentence>, key: Sentence -> int): (r: seq<Sentence>)
    ensures SortedDescBy(r, key)
    ensures multiset(r) == multiset(ss)
  {
    if ss == [] then []
    else
      assert ss == [ss[0]] + ss[1..];
      InsertBy(ss[0], SortDescBy(ss[1..], key), key)
  }
}
