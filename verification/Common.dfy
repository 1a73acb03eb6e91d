/** Vocabulary shared by every component: bytes, optional values, results, and 64-bit sums. */
module Common {
  newtype byte = x: int | 0 <= x < 256

  type Bytes = seq<byte>

  /** Largest value of the source's `u64`. */
  const U64_MAX: nat := 0xFFFF_FFFF_FFFF_FFFF

  const U32_MAX: nat := 0xFFFF_FFFF

  /** Length of a note commitment, an anchor, a nullifier and a transaction id. */
  const HASH_LEN: nat := 32

  /** A note commitment as a delta record holds it: the reader always cuts out 32 bytes. */
  type Cmu = b: Bytes | |b| == HASH_LEN witness seq(HASH_LEN, _ => 0)

  datatype Option<+T> = None | Some(value: T)

  datatype Result<+T, +E> = Ok(value: T) | Err(error: E)

  function Min(a: int, b: int): int {
    if a < b then a else b
  }

  function Max(a: int, b: int): int {
    if a < b then b else a
  }

  /** `u64::saturating_add` */
  function SatAdd(a: nat, b: nat): nat {
    Min(a + b, U64_MAX)
  }

  /** `u64::saturating_sub` */
  function SatSub(a: nat, b: nat): nat {
    if a < b then 0 else a - b
  }

  function AsSet<T>(s: seq<T>): set<T> {
    set x | x in s
  }

  predicate Distinct<T(==)>(s: seq<T>) {
    forall i, j :: 0 <= i < j < |s| ==> s[i] != s[j]
  }

  lemma DistinctExtend<T>(s: seq<T>, x: T)
    ensures Distinct(s + [x]) <==> Distinct(s) && x !in s
  {
    var t := s + [x];
    assert forall i :: 0 <= i < |s| ==> t[i] == s[i];
    assert t[|s|] == x;
  }

  lemma {:induction false} MulLess(a: nat, b: nat, k: nat)
    ensures a < b ==> a * k + k <= b * k
  {
    if a + 1 < b {
      MulLess(a, b - 1, k);
    }
    assert 0 < b ==> b * k == (b - 1) * k + k;
  }

  lemma DivGrows(a: nat, b: nat, k: nat)
    requires 0 < k && a <= b
    ensures a / k <= b / k
  {
    MulLess(b / k, a / k, k);
    assert a == a / k * k + a % k && b == b / k * k + b % k;
  }

  /** `n` is `q` times `k` and `r` more. */
  lemma DivMod(n: nat, k: nat, q: nat, r: nat)
    requires r < k && n == q * k + r
    ensures n / k == q && n % k == r
  {
    MulLess(n / k, q, k);
    MulLess(q, n / k, k);
  }

  /** Dividing by a product is dividing twice. */
  lemma DivTwice(i: nat, limit: nat, pages: nat)
    requires 0 < limit && 0 < pages
    ensures 0 < limit * pages && i / (limit * pages) == i / limit / pages
  {
    var q, r := Quotient(i, limit);
    var u, v := Quotient(q, pages);
    MulLess(v, pages, limit);
    Regroup(u, pages, v, limit);
    JoinParts(i, limit, pages, u, v, r);
  }

  lemma Quotient(n: nat, k: nat) returns (q: nat, r: nat)
    requires 0 < k
    ensures q == n / k && n == q * k + r && r < k
  {
    q, r := n / k, n % k;
  }

  lemma JoinParts(i: nat, limit: nat, pages: nat, u: nat, v: nat, r: nat)
    requires i == u * (limit * pages) + v * limit + r && v * limit + r < limit * pages
    ensures 0 < limit * pages && i / (limit * pages) == u
  {
    var size := limit * pages;
    DivMod(i, size, u, v * limit + r);
  }

  lemma Regroup(u: nat, pages: nat, v: nat, limit: nat)
    ensures (u * pages + v) * limit == u * (limit * pages) + v * limit && pages * limit == limit * pages
  {
    assert u * pages * limit == u * (pages * limit);
  }
}
