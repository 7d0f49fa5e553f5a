/** The order in which mismatch pages are sorted: strings compare
    lexicographically by character code, and the key triple
    (collection id, granule id, key path) compares lexicographically by field. */
module LexOrder {

  /** Strict lexicographic order on strings; a proper prefix sorts first. */
  predicate StrLess(a: string, b: string)
    decreases |a|
  {
    if |a| == 0 then |b| > 0
    else |b| > 0 && (a[0] < b[0] || (a[0] == b[0] && StrLess(a[1..], b[1..])))
  }

  lemma {:induction false} StrLessIrreflexive(a: string)
    ensures !StrLess(a, a)
    decreases |a|
  {
    if |a| > 0 {
      StrLessIrreflexive(a[1..]);
    }
  }

  lemma {:induction false} StrLessTransitive(a: string, b: string, c: string)
    requires StrLess(a, b) && StrLess(b, c)
    ensures StrLess(a, c)
    decreases |a|
  {
    if |a| > 0 && a[0] == b[0] && b[0] == c[0] {
      StrLessTransitive(a[1..], b[1..], c[1..]);
    }
  }

  lemma {:induction false} StrLessTrichotomy(a: string, b: string)
    ensures a == b || StrLess(a, b) || StrLess(b, a)
    decreases |a|
  {
    if |a| > 0 && |b| > 0 && a[0] == b[0] {
      StrLessTrichotomy(a[1..], b[1..]);
      if a[1..] == b[1..] {
        assert a == [a[0]] + a[1..] && b == [b[0]] + b[1..];
      }
    }
  }

  /** The composite sort key of a mismatch row. */
  datatype Key = Key(collectionId: string, granuleId: string, keyPath: string)

  /** The cursor sent when no page has been read yet: all three fields empty. */
  const EmptyKey := Key("", "", "")

  /** Strict lexicographic order on key triples. */
  predicate KeyLess(a: Key, b: Key) {
    || StrLess(a.collectionId, b.collectionId)
    || (a.collectionId == b.collectionId && StrLess(a.granuleId, b.granuleId))
    || (a.collectionId == b.collectionId && a.granuleId == b.granuleId && StrLess(a.keyPath, b.keyPath))
  }

  lemma KeyLessIrreflexive(a: Key)
    ensures !KeyLess(a, a)
  {
    StrLessIrreflexive(a.collectionId);
    StrLessIrreflexive(a.granuleId);
    StrLessIrreflexive(a.keyPath);
  }

  /** No two keys are each below the other. */
  lemma KeyLessAsymmetric(a: Key, b: Key)
    requires KeyLess(a, b)
    ensures !KeyLess(b, a)
  {
    if KeyLess(b, a) {
      KeyLessTransitive(a, b, a);
      KeyLessIrreflexive(a);
    }
  }

  lemma KeyLessTransitive(a: Key, b: Key, c: Key)
    requires KeyLess(a, b) && KeyLess(b, c)
    ensures KeyLess(a, c)
  {
    if StrLess(a.collectionId, b.collectionId) && StrLess(b.collectionId, c.collectionId) {
      StrLessTransitive(a.collectionId, b.collectionId, c.collectionId);
    } else if a.collectionId == b.collectionId == c.collectionId {
      if StrLess(a.granuleId, b.granuleId) && StrLess(b.granuleId, c.granuleId) {
        StrLessTransitive(a.granuleId, b.granuleId, c.granuleId);
      } else if a.granuleId == b.granuleId == c.granuleId {
        StrLessTransitive(a.keyPath, b.keyPath, c.keyPath);
      }
    }
  }

  /** Any two distinct keys are ordered one way or the other. */
  lemma KeyLessTrichotomy(a: Key, b: Key)
    ensures a == b || KeyLess(a, b) || KeyLess(b, a)
  {
    StrLessTrichotomy(a.collectionId, b.collectionId);
    StrLessTrichotomy(a.granuleId, b.granuleId);
    StrLessTrichotomy(a.keyPath, b.keyPath);
  }

  /** The empty cursor lies strictly below every other key. */
  lemma EmptyKeyIsLeast(k: Key)
    requires k != EmptyKey
    ensures KeyLess(EmptyKey, k)
  {
  }
}
