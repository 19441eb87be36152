/**
 * Shared vocabulary of the two identity registries (TabManager.swift and
 * PageManager.swift): a map from synthetic integer ids to host handles,
 * where handles are compared with `isEqual` (here `==`).
 */
module IdentityMap {
  import opened Wrappers

  /** At most one id per handle. */
  ghost predicate Injective<H>(m: map<int, H>) {
    forall j, k :: j in m && k in m && m[j] == m[k] ==> j == k
  }

  /** Some entry of `m` holds `h`. */
  ghost predicate Stores<H>(m: map<int, H>, h: H) {
    exists k :: k in m && m[k] == h
  }

  /** No entry of a map that does not store `h` holds it. */
  lemma NotStoredAt<H>(m: map<int, H>, h: H, k: int)
    requires !Stores(m, h) && k in m
    ensures m[k] != h
  {
  }

  /** The handles `m` holds. */
  ghost function Handles<H>(m: map<int, H>): set<H> {
    set k | k in m :: m[k]
  }

  /** A non-empty set has a member (what an iteration step picks). */
  lemma HasMember<X>(s: set<X>) returns (x: X)
    requires s != {}
    ensures x in s
  {
    if forall y :: y !in s {
      assert false;
    }
    x :| x in s;
  }

  /**
   * The lookup loop of both `get...Id` methods: the key of an entry holding
   * `h`, or nothing when no entry does.
   */
  method FindStoredKey<H(==)>(m: map<int, H>, h: H) returns (r: Option<int>)
    ensures r.Some? ==> r.value in m && m[r.value] == h
    ensures r.None? <==> !Stores(m, h)
  {
    var keys := m.Keys;
    while keys != {}
      invariant keys <= m.Keys
      invariant forall k :: k in m && k !in keys ==> m[k] != h
      decreases keys
    {
      ghost var some := HasMember(keys);
      var k :| k in keys;
      if m[k] == h {
        return Some(k);
      }
      keys := keys - {k};
    }
    return None;
  }
}
