/**
  `class Open_Hash`, the memo of boards the search has shown to be hopeless: a
  fixed array of `BIGPRIME` buckets, each a vector of boards, and a count of the
  boards added. Its meaning is the set of boards stored in it (`Keys`); `Search`
  and `Add` behave as set membership and set insertion on that view.
 */
module OpenHashing {
  import opened Bits64
  import opened BoardEncoding

  /** `BIGPRIME`: the number of buckets. */
  const BigPrime: nat := 123787

  /** The bucket array and `OH_EntriesAdded`. */
  datatype OpenHash = OpenHash(table: seq<seq<Board>>, entriesAdded: int)

  /** The bucket a board is filed under: `key % BIGPRIME`. */
  function BucketOf(key: Board): nat
  {
    key % BigPrime
  }

  /** The boards stored anywhere in the table. */
  ghost function Keys(h: OpenHash): set<Board>
  {
    set b, i | 0 <= b < |h.table| && 0 <= i < |h.table[b]| :: h.table[b][i]
  }

  /**
    The representation invariant: `BIGPRIME` buckets, every board in the bucket
    its value selects, no bucket holding a board twice, and the counter equal
    to the number of stored boards.
   */
  ghost predicate Valid(h: OpenHash)
  {
    && |h.table| == BigPrime
    && (forall b, i | 0 <= b < |h.table| && 0 <= i < |h.table[b]| :: BucketOf(h.table[b][i]) == b)
    && (forall b, i, k | 0 <= b < |h.table| && 0 <= i < k < |h.table[b]| :: h.table[b][i] != h.table[b][k])
    && h.entriesAdded == |Keys(h)|
  }

  /** A freshly constructed table: every bucket empty, nothing counted. */
  function Empty(): (h: OpenHash)
    ensures Valid(h) && Keys(h) == {}
  {
    var h := OpenHash(seq(BigPrime, _ => []), 0);
    assert forall b | 0 <= b < |h.table| :: |h.table[b]| == 0;
    h
  }

  /** In a valid table a board is stored exactly when it is in its own bucket. */
  lemma InBucket(h: OpenHash, key: Board)
    requires Valid(h)
    ensures key in Keys(h) <==> key in h.table[BucketOf(key)]
  {
    if key in Keys(h) {
      var b, i :| 0 <= b < |h.table| && 0 <= i < |h.table[b]| && h.table[b][i] == key;
      assert BucketOf(h.table[b][i]) == b;
    }
    if key in h.table[BucketOf(key)] {
      var i :| 0 <= i < |h.table[BucketOf(key)]| && h.table[BucketOf(key)][i] == key;
    }
  }

  /** `Search`: scan the key's bucket for it. */
  method Search(h: OpenHash, key: Board) returns (found: bool)
    requires Valid(h)
    ensures found <==> key in Keys(h)
  {
    InBucket(h, key);
    var bucket := BucketOf(key);
    var current := 0;
    while current < |h.table[bucket]|
      invariant 0 <= current <= |h.table[bucket]|
      invariant key !in h.table[bucket][..current]
    {
      if h.table[bucket][current] == key {
        return true;
      }
      current := current + 1;
    }
    assert h.table[bucket][..current] == h.table[bucket];
    return false;
  }

  /**
    `Add`: return early if the key is already in its bucket, otherwise append it
    there and count it.
   */
  method Add(h: OpenHash, key: Board) returns (h': OpenHash)
    requires Valid(h)
    ensures Valid(h')
    ensures Keys(h') == Keys(h) + {key}
    ensures h'.entriesAdded == h.entriesAdded + (if key in Keys(h) then 0 else 1)
    ensures key in Keys(h) ==> h' == h
  {
    InBucket(h, key);
    var bucket := BucketOf(key);
    var current := 0;
    while current < |h.table[bucket]|
      invariant 0 <= current <= |h.table[bucket]|
      invariant key !in h.table[bucket][..current]
    {
      if h.table[bucket][current] == key {
        return h;
      }
      current := current + 1;
    }
    assert h.table[bucket][..current] == h.table[bucket];
    h' := Appended(h, key);
  }

  /** The table with `key`, which is not stored yet, appended to its bucket. */
  function Appended(h: OpenHash, key: Board): (h': OpenHash)
    requires Valid(h) && key !in Keys(h)
    ensures Valid(h') && Keys(h') == Keys(h) + {key} && h'.entriesAdded == h.entriesAdded + 1
  {
    InBucket(h, key);
    var bucket := BucketOf(key);
    var h' := OpenHash(h.table[bucket := h.table[bucket] + [key]], h.entriesAdded + 1);
    AppendedKeys(h, key, h');
    h'
  }

  lemma AppendedKeys(h: OpenHash, key: Board, h': OpenHash)
    requires Valid(h) && key !in Keys(h) && key !in h.table[BucketOf(key)]
    requires h' == OpenHash(h.table[BucketOf(key) := h.table[BucketOf(key)] + [key]], h.entriesAdded + 1)
    ensures Valid(h') && Keys(h') == Keys(h) + {key}
  {
    var bucket := BucketOf(key);
    forall k | k in Keys(h')
      ensures k in Keys(h) + {key}
    {
      var b, i :| 0 <= b < |h'.table| && 0 <= i < |h'.table[b]| && h'.table[b][i] == k;
      if b == bucket && i == |h.table[bucket]| {
        assert k == key;
      } else {
        assert k == h.table[b][i];
      }
    }
    forall k | k in Keys(h) + {key}
      ensures k in Keys(h')
    {
      if k == key {
        assert h'.table[bucket][|h.table[bucket]|] == key;
      } else {
        var b, i :| 0 <= b < |h.table| && 0 <= i < |h.table[b]| && h.table[b][i] == k;
        assert h'.table[b][i] == k;
      }
    }
    assert Keys(h') == Keys(h) + {key};
    forall b, i | 0 <= b < |h'.table| && 0 <= i < |h'.table[b]|
      ensures BucketOf(h'.table[b][i]) == b
    {
      if b != bucket || i < |h.table[bucket]| {
        assert h'.table[b][i] == h.table[b][i];
      }
    }
    forall b, i, k | 0 <= b < |h'.table| && 0 <= i < k < |h'.table[b]|
      ensures h'.table[b][i] != h'.table[b][k]
    {
      if b == bucket && k == |h.table[bucket]| {
        assert h'.table[b][i] == h.table[b][i];
        assert h.table[b][i] in h.table[bucket];
      }
    }
  }
}
