/**
 * Header-chain verification and the hashed pre-image of a block header
 * (crates/zipherx-crypto/src/equihash.rs).
 */
module HeaderChain {
  import opened Common

  const BASE_SIZE: nat := 140
  const SOLUTION_192_7: nat := 400
  const SOLUTION_200_9: nat := 1344

  /** SHA-256 and the Equihash check for the given parameters, input, nonce and solution. */
  datatype Crypto = Crypto(sha256: Bytes -> Bytes, equihash: (nat, nat, Bytes, Bytes, Bytes) -> bool)

  datatype HeaderError = InvalidBlockHeader | OffsetSizeMismatch

  // ---------------------------------------------------------------- the pre-image

  function LittleEndian(n: nat, width: nat): (b: Bytes)
    ensures |b| == width
  {
    if width == 0 then [] else [(n % 256) as byte] + LittleEndian(n / 256, width - 1)
  }

  /** The length prefix of the solution, as in the Bitcoin protocol; lengths are cut to 32 bits. */
  function CompactSize(n: nat): Bytes {
    if n < 0xFD then [n as byte]
    else if n <= 0xFFFF then [0xFD] + LittleEndian(n, 2)
    else [0xFE] + LittleEndian(n, 4)
  }

  function PreImage(base: Bytes, solution: Bytes): Bytes {
    base + CompactSize(|solution|) + solution
  }

  function BlockHash(c: Crypto, base: Bytes, solution: Bytes): Bytes {
    c.sha256(c.sha256(PreImage(base, solution)))
  }

  lemma CutConcat(a: Bytes, b: Bytes, c: Bytes, d: Bytes)
    requires a + b == c + d && |a| == |c|
    ensures a == c && b == d
  {
    assert a == (a + b)[..|a|] && b == (a + b)[|a|..];
    assert c == (c + d)[..|c|] && d == (c + d)[|c|..];
  }

  /** The first byte of the prefix tells how long the prefix is. */
  lemma PrefixLength(m: nat, n: nat)
    requires CompactSize(m)[0] == CompactSize(n)[0]
    ensures |CompactSize(m)| == |CompactSize(n)|
  {
  }

  /** The hashed bytes determine header and solution, whatever the solution's length. */
  lemma PreImageInjective(b1: Bytes, s1: Bytes, b2: Bytes, s2: Bytes)
    requires |b1| == BASE_SIZE == |b2| && PreImage(b1, s1) == PreImage(b2, s2)
    ensures b1 == b2 && s1 == s2
  {
    var c1, c2 := CompactSize(|s1|), CompactSize(|s2|);
    assert PreImage(b1, s1) == b1 + (c1 + s1) && PreImage(b2, s2) == b2 + (c2 + s2);
    CutConcat(b1, c1 + s1, b2, c2 + s2);
    assert (c1 + s1)[0] == c1[0] && (c2 + s2)[0] == c2[0];
    PrefixLength(|s1|, |s2|);
    CutConcat(c1, s1, c2, s2);
  }

  /** Different headers or solutions have different block hashes, unless the hash function itself collides. */
  lemma HashesDiffer(c: Crypto, b1: Bytes, s1: Bytes, b2: Bytes, s2: Bytes)
    requires |b1| == BASE_SIZE == |b2| && (b1 != b2 || s1 != s2)
    ensures BlockHash(c, b1, s1) != BlockHash(c, b2, s2) || Collides(c, PreImage(b1, s1), PreImage(b2, s2))
  {
    if PreImage(b1, s1) == PreImage(b2, s2) {
      PreImageInjective(b1, s1, b2, s2);
    }
  }

  /** Two different byte strings with the same double hash. */
  predicate Collides(c: Crypto, x: Bytes, y: Bytes) {
    x != y && c.sha256(c.sha256(x)) == c.sha256(c.sha256(y))
  }

  // ---------------------------------------------------------------- the chain

  /** Equihash parameters are told by the length of the solution. */
  function Verify(c: Crypto, base: Bytes, solution: Bytes): Result<bool, HeaderError>
    requires |base| == BASE_SIZE
  {
    if |solution| == SOLUTION_192_7 then Ok(c.equihash(192, 7, base[..108], base[108..], solution))
    else if |solution| == SOLUTION_200_9 then Ok(c.equihash(200, 9, base[..108], base[108..], solution))
    else Err(InvalidBlockHeader)
  }

  /** Where a header lies in the data: offset and size. */
  type Slot = (nat, nat)

  predicate InBounds(data: Bytes, s: Slot) {
    s.0 + s.1 <= U64_MAX && s.0 + s.1 <= |data| && BASE_SIZE <= s.1
  }

  function Base(data: Bytes, s: Slot): (b: Bytes)
    requires InBounds(data, s)
    ensures |b| == BASE_SIZE
  {
    data[s.0..s.0 + BASE_SIZE]
  }

  function Solution(data: Bytes, s: Slot): Bytes
    requires InBounds(data, s)
  {
    data[s.0 + BASE_SIZE..s.0 + s.1]
  }

  function PrevHash(data: Bytes, s: Slot): Bytes
    requires InBounds(data, s)
  {
    data[s.0 + 4..s.0 + 36]
  }

  function SlotHash(c: Crypto, data: Bytes, s: Slot): Bytes
    requires InBounds(data, s)
  {
    BlockHash(c, Base(data, s), Solution(data, s))
  }

  function Judge(c: Crypto, data: Bytes, s: Slot, prev: Bytes): Result<bool, HeaderError> {
    if !InBounds(data, s) then Err(InvalidBlockHeader)
    else if PrevHash(data, s) != prev then Ok(false)
    else Verify(c, Base(data, s), Solution(data, s))
  }

  /** The verdict on a chain of headers: that of the first one that does not pass, if any. */
  function Verdict(c: Crypto, data: Bytes, slots: seq<Slot>, prev: Bytes): Result<bool, HeaderError> {
    if slots == [] then Ok(true)
    else if Judge(c, data, slots[0], prev) != Ok(true) then Judge(c, data, slots[0], prev)
    else Verdict(c, data, slots[1..], SlotHash(c, data, slots[0]))
  }

  function Zip(offsets: seq<nat>, sizes: seq<nat>): (r: seq<Slot>)
    requires |offsets| == |sizes|
    ensures |r| == |offsets| && forall i :: 0 <= i < |r| ==> r[i] == (offsets[i], sizes[i])
  {
    seq(|offsets|, i requires 0 <= i < |offsets| => (offsets[i], sizes[i]))
  }

  lemma VerdictStep(c: Crypto, data: Bytes, slots: seq<Slot>, i: nat, prev: Bytes)
    requires i < |slots|
    ensures Verdict(c, data, slots[i..], prev) ==
            if Judge(c, data, slots[i], prev) != Ok(true) then Judge(c, data, slots[i], prev)
            else Verdict(c, data, slots[i + 1..], SlotHash(c, data, slots[i]))
  {
    hide Judge, SlotHash;
    assert slots[i..][1..] == slots[i + 1..];
  }

  lemma NoVerdict(c: Crypto, data: Bytes, slots: seq<Slot>, prev: Bytes)
    ensures Verdict(c, data, slots[|slots|..], prev) == Ok(true)
  {
  }

  method VerifyHeaderChain(c: Crypto, data: Bytes, count: nat, expectedPrev: Bytes, offsets: seq<nat>, sizes: seq<nat>)
    returns (r: Result<bool, HeaderError>)
    ensures count == 0 ==> r == Ok(true)
    ensures count != 0 && !(|offsets| == count == |sizes|) ==> r == Err(OffsetSizeMismatch)
    ensures count != 0 && |offsets| == count == |sizes| ==> r == Verdict(c, data, Zip(offsets, sizes), expectedPrev)
  {
    hide Verdict, Verify, BlockHash;
    if count == 0 {
      return Ok(true);
    }
    if |offsets| != count || |sizes| != count {
      return Err(OffsetSizeMismatch);
    }
    ghost var slots := Zip(offsets, sizes);
    var prev := expectedPrev;
    assert slots[0..] == slots;
    for i := 0 to count
      invariant Verdict(c, data, slots, expectedPrev) == Verdict(c, data, slots[i..], prev)
    {
      VerdictStep(c, data, slots, i, prev);
      var offset, size := offsets[i], sizes[i];
      var end := offset + size;
      if U64_MAX < end || |data| < end || size < BASE_SIZE {
        return Err(InvalidBlockHeader);
      }
      var header := data[offset..end];
      assert header[4..36] == PrevHash(data, (offset, size));
      assert header[..BASE_SIZE] == Base(data, (offset, size)) && header[BASE_SIZE..] == Solution(data, (offset, size));
      if header[4..36] != prev {
        return Ok(false);
      }
      var solved := Verify(c, header[..BASE_SIZE], header[BASE_SIZE..]);
      if solved != Ok(true) {
        return solved;
      }
      prev := BlockHash(c, header[..BASE_SIZE], header[BASE_SIZE..]);
    }
    NoVerdict(c, data, slots, prev);
    return Ok(true);
  }

  /** What header `i` must link to. */
  function Before(c: Crypto, data: Bytes, slots: seq<Slot>, prev: Bytes, i: nat): Bytes
    requires i <= |slots| && (i > 0 ==> InBounds(data, slots[i - 1]))
  {
    if i == 0 then prev else SlotHash(c, data, slots[i - 1])
  }

  /** Every header is within the data, links to the hash of the one before it, and is solved. */
  predicate Linked(c: Crypto, data: Bytes, slots: seq<Slot>, prev: Bytes) {
    && (forall i :: 0 <= i < |slots| ==> InBounds(data, slots[i]))
    && (forall i :: 0 <= i < |slots| ==>
          && PrevHash(data, slots[i]) == Before(c, data, slots, prev, i)
          && Verify(c, Base(data, slots[i]), Solution(data, slots[i])) == Ok(true))
  }

  lemma LinkedCons(c: Crypto, data: Bytes, s: Slot, rest: seq<Slot>, prev: Bytes)
    requires InBounds(data, s)
    ensures Linked(c, data, [s] + rest, prev) <==>
            && PrevHash(data, s) == prev && Verify(c, Base(data, s), Solution(data, s)) == Ok(true)
            && Linked(c, data, rest, SlotHash(c, data, s))
  {
    hide InBounds, PrevHash, SlotHash, Verify, Base, Solution;
    var all := [s] + rest;
    assert all[0] == s && forall i :: 0 <= i < |rest| ==> all[i + 1] == rest[i];
    if Linked(c, data, all, prev) {
      assert Before(c, data, all, prev, 0) == prev;
      forall i | 0 <= i < |rest|
        ensures InBounds(data, rest[i]) && Verify(c, Base(data, rest[i]), Solution(data, rest[i])) == Ok(true)
      {
        assert all[i + 1] == rest[i];
      }
      forall i | 0 <= i < |rest| ensures PrevHash(data, rest[i]) == Before(c, data, rest, SlotHash(c, data, s), i) {
        assert PrevHash(data, all[i + 1]) == Before(c, data, all, prev, i + 1);
      }
    }
    if PrevHash(data, s) == prev && Verify(c, Base(data, s), Solution(data, s)) == Ok(true)
       && Linked(c, data, rest, SlotHash(c, data, s)) {
      forall i | 0 <= i < |all| ensures InBounds(data, all[i]) {
        assert i > 0 ==> all[i] == rest[i - 1];
      }
      forall i | 0 <= i < |all|
        ensures PrevHash(data, all[i]) == Before(c, data, all, prev, i)
        ensures Verify(c, Base(data, all[i]), Solution(data, all[i])) == Ok(true)
      {
        if i > 0 {
          assert all[i] == rest[i - 1];
          assert PrevHash(data, rest[i - 1]) == Before(c, data, rest, SlotHash(c, data, s), i - 1);
        }
      }
    }
  }

  /** A chain is accepted exactly if every header links to its predecessor's hash and is solved. */
  lemma {:induction false} AcceptedIffLinked(c: Crypto, data: Bytes, slots: seq<Slot>, prev: Bytes)
    ensures Verdict(c, data, slots, prev) == Ok(true) <==> Linked(c, data, slots, prev)
  {
    hide Linked, PrevHash, SlotHash, Verify, Base, Solution;
    if slots == [] {
      NothingLinked(c, data, prev);
    } else {
      assert slots == [slots[0]] + slots[1..];
      if InBounds(data, slots[0]) {
        LinkedCons(c, data, slots[0], slots[1..], prev);
        AcceptedIffLinked(c, data, slots[1..], SlotHash(c, data, slots[0]));
      } else {
        LinkedInBounds(c, data, slots, prev);
      }
    }
  }

  lemma NothingLinked(c: Crypto, data: Bytes, prev: Bytes)
    ensures Linked(c, data, [], prev)
  {
  }

  lemma LinkedInBounds(c: Crypto, data: Bytes, slots: seq<Slot>, prev: Bytes)
    requires slots != []
    ensures Linked(c, data, slots, prev) ==> InBounds(data, slots[0])
  {
  }

  /** The hash a next header must link to. */
  function LastHash(c: Crypto, data: Bytes, slots: seq<Slot>, prev: Bytes): Bytes
    requires Verdict(c, data, slots, prev) == Ok(true)
  {
    if slots == [] then prev else LastHash(c, data, slots[1..], SlotHash(c, data, slots[0]))
  }

  /** Verifying A followed by B is verifying A, and then B from A's last hash. */
  lemma {:induction false} VerdictComposes(c: Crypto, data: Bytes, a: seq<Slot>, b: seq<Slot>, prev: Bytes)
    ensures Verdict(c, data, a + b, prev) ==
            if Verdict(c, data, a, prev) == Ok(true) then Verdict(c, data, b, LastHash(c, data, a, prev))
            else Verdict(c, data, a, prev)
  {
    hide Judge, SlotHash;
    if a == [] {
      assert a + b == b;
    } else {
      assert (a + b)[1..] == a[1..] + b;
      if Judge(c, data, a[0], prev) == Ok(true) {
        Judged(c, data, a[0], prev);
        VerdictComposes(c, data, a[1..], b, SlotHash(c, data, a[0]));
      }
    }
  }

  lemma Judged(c: Crypto, data: Bytes, s: Slot, prev: Bytes)
    requires Judge(c, data, s, prev) == Ok(true)
    ensures InBounds(data, s)
  {
  }

  /** A wrong solution length is an error, not a rejection. */
  lemma WrongSolutionLength(c: Crypto, data: Bytes, s: Slot, prev: Bytes)
    requires InBounds(data, s) && PrevHash(data, s) == prev
    ensures Verdict(c, data, [s], prev).Err? <==> s.1 != BASE_SIZE + SOLUTION_192_7 && s.1 != BASE_SIZE + SOLUTION_200_9
  {
    assert [s][1..] == [];
    assert |Solution(data, s)| == s.1 - BASE_SIZE;
  }

  // ---------------------------------------------------------------- byte by byte

  /** The number that bytes stand for, least significant first. */
  function Number(b: Bytes): nat {
    if b == [] then 0 else b[0] as nat + 256 * Number(b[1..])
  }

  function Power256(n: nat): (p: nat)
    ensures 0 < p
  {
    if n == 0 then 1 else 256 * Power256(n - 1)
  }

  lemma {:induction false} LittleEndianIs(n: nat, width: nat)
    ensures Number(LittleEndian(n, width)) == n % Power256(width)
  {
    if width > 0 {
      LittleEndianIs(n / 256, width - 1);
      var b := LittleEndian(n / 256, width - 1);
      assert ([(n % 256) as byte] + b)[1..] == b;
      SplitNumber(n, Power256(width - 1));
    }
  }

  lemma SplitNumber(n: nat, p: nat)
    requires 0 < p
    ensures 0 < 256 * p && n % (256 * p) == n % 256 + 256 * (n / 256 % p)
  {
    var q, r := n / 256, n % 256;
    var u, v := q / p, q % p;
    assert n == 256 * q + r && q == u * p + v;
    assert n == u * (256 * p) + (256 * v + r);
    DivMod(n, 256 * p, u, 256 * v + r);
  }

  /** One byte below 253; else 253 and two bytes, or 254 and four, least significant first; so 253, 64, 5 for 1344. */
  lemma CompactSizeIs(n: nat)
    ensures n < 253 ==> |CompactSize(n)| == 1 && CompactSize(n)[0] as nat == n
    ensures 253 <= n < 65_536 ==> |CompactSize(n)| == 3 && CompactSize(n)[0] == 253 && Number(CompactSize(n)[1..]) == n
    ensures 65_536 <= n < 4_294_967_296 ==>
              |CompactSize(n)| == 5 && CompactSize(n)[0] == 254 && Number(CompactSize(n)[1..]) == n
    ensures CompactSize(1344) == [253, 64, 5] && CompactSize(400) == [253, 144, 1]
  {
    LittleEndianIs(n, 2);
    LittleEndianIs(n, 4);
    assert Power256(2) == 65_536 && Power256(4) == 65_536 * Power256(2);
    assert LittleEndian(1344, 2) == [64, 5] by {
      assert LittleEndian(5, 1) == [5] + LittleEndian(0, 0);
    }
    assert LittleEndian(400, 2) == [144, 1] by {
      assert LittleEndian(1, 1) == [1] + LittleEndian(0, 0);
    }
  }

  /**
   * The hash of the header in `data` at `s`: twice SHA-256 of its 140 bytes, the length of the
   * solution, and the solution.
   */
  lemma SlotHashIs(c: Crypto, data: Bytes, s: Slot)
    requires InBounds(data, s)
    ensures SlotHash(c, data, s) ==
            c.sha256(c.sha256(data[s.0..s.0 + 140] + CompactSize(s.1 - 140) + data[s.0 + 140..s.0 + s.1]))
  {
  }

  /**
   * The verdict on one header: it must lie within the data with at least 140 bytes, name the hash
   * before it in bytes 4 to 35, and be solved, for (192, 7) by 400 bytes and for (200, 9) by 1344.
   */
  lemma VerdictOnOne(c: Crypto, data: Bytes, s: Slot, prev: Bytes)
    ensures Verdict(c, data, [s], prev) ==
            if s.1 < 140 || |data| < s.0 + s.1 || 0xFFFF_FFFF_FFFF_FFFF < s.0 + s.1 then Err(InvalidBlockHeader)
            else if data[s.0 + 4..s.0 + 36] != prev then Ok(false)
            else if s.1 == 540 then
              Ok(c.equihash(192, 7, data[s.0..s.0 + 108], data[s.0 + 108..s.0 + 140], data[s.0 + 140..s.0 + 540]))
            else if s.1 == 1484 then
              Ok(c.equihash(200, 9, data[s.0..s.0 + 108], data[s.0 + 108..s.0 + 140], data[s.0 + 140..s.0 + 1484]))
            else Err(InvalidBlockHeader)
  {
    assert [s][1..] == [];
    if InBounds(data, s) {
      assert Base(data, s)[..108] == data[s.0..s.0 + 108] && Base(data, s)[108..] == data[s.0 + 108..s.0 + 140];
    }
  }

  /** What the header after some accepted ones must name: the hash of the last of them. */
  lemma {:induction false} LastHashIs(c: Crypto, data: Bytes, slots: seq<Slot>, prev: Bytes)
    requires Verdict(c, data, slots, prev) == Ok(true)
    ensures slots == [] ==> LastHash(c, data, slots, prev) == prev
    ensures slots != [] ==>
              InBounds(data, slots[|slots| - 1])
                  && LastHash(c, data, slots, prev) == SlotHash(c, data, slots[|slots| - 1])
  {
    hide SlotHash;
    if slots != [] {
      LastHashIs(c, data, slots[1..], SlotHash(c, data, slots[0]));
    }
  }
}
