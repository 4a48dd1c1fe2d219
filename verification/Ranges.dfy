/** Inclusive key intervals, the unit a range lock protects. */
module Ranges {
  import opened Ids
  import opened Collections

  datatype RawRange = RawRange(start: U64, end: U64)

  /** `new` rejects inverted bounds, so every range in use has `start <= end`. */
  type KeyRange = r: RawRange | r.start <= r.end witness RawRange(0, 0)

  function New(start: U64, end: U64): (r: Option<KeyRange>)
    ensures r.None? <==> end < start
    ensures r.Some? ==> forall k: U64 :: Contains(r.value, k) <==> start <= k <= end
  {
    if start <= end then Some(RawRange(start, end)) else None
  }

  function Point(key: U64): (r: KeyRange)
    ensures forall k: U64 :: Contains(r, k) <==> k == key
  {
    RawRange(key, key)
  }

  predicate Contains(r: KeyRange, key: U64) {
    r.start <= key <= r.end
  }

  predicate Overlaps(a: KeyRange, b: KeyRange) {
    a.start <= b.end && b.start <= a.end
  }

  /** Bound comparison decides whether two ranges share a key. */
  lemma OverlapMeansCommonKey(a: KeyRange, b: KeyRange)
    ensures Overlaps(a, b) <==> exists key: U64 :: Contains(a, key) && Contains(b, key)
  {
    if Overlaps(a, b) {
      var key: U64 := if a.start <= b.start then b.start else a.start;
      assert Contains(a, key) && Contains(b, key);
    }
  }
}
