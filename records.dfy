/**
 * The records of CampusCompass.h and the canonical pair key used to look up
 * an edge by its two endpoints.
 */
module Records {

  /** One direction of an edge, as stored in an adjacency list. */
  datatype EdgeInfo = EdgeInfo(to: int, weight: nat, open: bool)

  /** The canonical record of an undirected edge, kept once per endpoint pair. */
  datatype EdgeRecord = EdgeRecord(weight: nat, open: bool)

  /** A class: where it meets and its start and end, in minutes since midnight. */
  datatype ClassInfo = ClassInfo(loc: int, startMinutes: int, endMinutes: int)

  /** A student; `classes` is a set, so a code is never held twice. */
  datatype Student = Student(name: string, id: string, residence: int, classes: set<string>)

  /** Node ids the packed key handles: the non-negative values of a 32-bit int. */
  predicate IsNodeId(x: int) {
    0 <= x <= 0x7FFF_FFFF
  }

  const TwoTo32: int := 0x1_0000_0000

  /**
   * The canonical unordered pair: the smaller id first. The model keys the
   * edge table by this pair; KeyPairMatchesCanon shows that this is the same
   * identification as the packed 64-bit key of the source.
   */
  function Canon(a: int, b: int): (k: (int, int))
    ensures k.0 <= k.1
    ensures {k.0, k.1} == {a, b}
  {
    if a > b then (b, a) else (a, b)
  }

  /**
   * The packed key: swap so that the smaller id comes first, then put it in
   * the high 32 bits and the larger id in the low 32 bits. For the ids of
   * IsNodeId the bitwise or of the source is an addition.
   */
  function KeyPair(a: int, b: int): (k: int)
    requires IsNodeId(a) && IsNodeId(b)
    ensures k / TwoTo32 == (if a <= b then a else b)
    ensures k % TwoTo32 == (if a <= b then b else a)
    ensures 0 <= k
  {
    var (lo, hi) := Canon(a, b);
    lo * TwoTo32 + hi
  }

  /** The key does not depend on the order of the endpoints. */
  lemma KeyPairSymmetric(a: int, b: int)
    requires IsNodeId(a) && IsNodeId(b)
    ensures KeyPair(a, b) == KeyPair(b, a)
  {
  }

  /** Two pairs get the same packed key exactly when they are the same unordered pair. */
  lemma KeyPairMatchesCanon(a: int, b: int, c: int, d: int)
    requires IsNodeId(a) && IsNodeId(b) && IsNodeId(c) && IsNodeId(d)
    ensures KeyPair(a, b) == KeyPair(c, d) <==> Canon(a, b) == Canon(c, d)
  {
    var k1, k2 := KeyPair(a, b), KeyPair(c, d);
    if k1 == k2 {
      assert k1 / TwoTo32 == k2 / TwoTo32 && k1 % TwoTo32 == k2 % TwoTo32;
    }
  }

  /** Injectivity on unordered pairs: distinct pairs {a,b} and {c,d} get distinct keys. */
  lemma KeyPairInjective(a: int, b: int, c: int, d: int)
    requires IsNodeId(a) && IsNodeId(b) && IsNodeId(c) && IsNodeId(d)
    requires {a, b} != {c, d}
    ensures KeyPair(a, b) != KeyPair(c, d)
  {
    KeyPairMatchesCanon(a, b, c, d);
  }
}
