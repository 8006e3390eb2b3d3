/** The block digest and the proof-of-work target.

    The source hashes the concatenation of a block's previous hash, timestamp,
    JSON-encoded transactions and nonce with SHA-256 and keeps the hex digest.
    Here that whole pipeline is a function value of type `HashFn`; all the model
    knows of it is that every result is a 64-character lowercase hex string. */
module Digest {
  import opened Transactions

  const DigestLength: nat := 64
  /** A lowercase hexadecimal digit, as `hexdigest()` produces. */
  predicate IsHexChar(c: char) {
    '0' <= c <= '9' || 'a' <= c <= 'f'
  }

  predicate IsHexDigest(s: string) {
    |s| == DigestLength && forall i :: 0 <= i < |s| ==> IsHexChar(s[i])
  }

  /** `Zeros(d)` is the string `'0' * d`. */
  function Zeros(d: nat): (z: string)
    ensures |z| == d
    ensures forall i :: 0 <= i < d ==> z[i] == '0'
  {
    seq(d, _ => '0')
  }

  function ZeroDigest(): (z: string)
    ensures IsHexDigest(z)
  {
    Zeros(DigestLength)
  }

  /** Hash of (previous hash, timestamp, transactions, nonce). */
  type HashFn = f: (string, int, seq<Tx>, nat) -> string
    | forall p, t, x, n :: IsHexDigest(f(p, t, x, n))
    witness (p: string, t: int, x: seq<Tx>, n: nat) => ZeroDigest()

  /** Python's slice `s[0:d]`: the first `d` characters, or all of `s` when it is shorter. */
  function Prefix(s: string, d: nat): (p: string)
    ensures |p| == if d <= |s| then d else |s|
    ensures p <= s
  {
    if d <= |s| then s[..d] else s
  }

  /** The loop guard of mining, negated: `s[0:d] == '0' * d`. */
  predicate MeetsTarget(s: string, d: nat) {
    Prefix(s, d) == Zeros(d)
  }

  /** Some nonce makes the block with these other fields meet the target. */
  ghost predicate Mineable(sha: HashFn, prev: string, timestamp: int, txs: seq<Tx>, d: nat) {
    exists n: nat :: MeetsTarget(sha(prev, timestamp, txs, n), d)
  }

  /** The target means exactly: at least `d` characters, and the first `d` are all '0'. */
  lemma MeetsTargetIff(s: string, d: nat)
    ensures MeetsTarget(s, d) <==> d <= |s| && forall i :: 0 <= i < d ==> s[i] == '0'
  {
    if d <= |s| && forall i :: 0 <= i < d ==> s[i] == '0' {
      assert Prefix(s, d) == Zeros(d);
    }
  }

  /** A target longer than a digest can never be met, so mining would never stop. */
  lemma UnreachableTarget(s: string, d: nat)
    requires IsHexDigest(s) && d > DigestLength
    ensures !MeetsTarget(s, d)
  {
    MeetsTargetIff(s, d);
  }

  /** A digest meeting difficulty `d` meets every smaller difficulty. */
  lemma MeetsTargetWeaker(s: string, d: nat, e: nat)
    requires MeetsTarget(s, d) && e <= d
    ensures MeetsTarget(s, e)
  {
    MeetsTargetIff(s, d);
    MeetsTargetIff(s, e);
  }
}
