/** Validator records and the sequence facts the staking model shares: membership by signer,
    lookup by signer, and the sum of voting power. */
module Validators {
  import opened Outcomes

  newtype byte = x: int | 0 <= x < 256

  /** A signer address (the Go `HeimdallAddress` bytes). */
  type Address = seq<byte>

  type PubKey = seq<byte>

  /** A validator record. `id` is assigned once; `signer` can be rekeyed; `endEpoch == 0` means
      no end has been set; `accum` is the proposer-priority accumulator. */
  datatype Validator = Validator(
    id: nat,
    startEpoch: nat,
    endEpoch: nat,
    power: nat,
    pubKey: PubKey,
    signer: Address,
    accum: int)

  /** Whether a validator belongs in the active set at the epoch cursor `ackCount`: it has
      stake, it has started, and it has not ended. */
  predicate IsCurrentValidator(v: Validator, ackCount: nat) {
    v.power > 0 && v.startEpoch <= ackCount && (v.endEpoch == 0 || ackCount <= v.endEpoch)
  }

  predicate HasSigner(vals: seq<Validator>, a: Address) {
    exists j | 0 <= j < |vals| :: vals[j].signer == a
  }

  /** No two entries share a signer. */
  predicate UniqueSigners(vals: seq<Validator>) {
    forall i, j | 0 <= i < j < |vals| :: vals[i].signer != vals[j].signer
  }

  function PowerSum(vals: seq<Validator>): nat
    decreases |vals|
  {
    if vals == [] then 0 else vals[0].power + PowerSum(vals[1..])
  }

  /** The first entry with the given signer. */
  function Find(vals: seq<Validator>, a: Address): (r: Option<Validator>)
    ensures r.None? <==> !HasSigner(vals, a)
    ensures r.Some? ==> r.value.signer == a && r.value in vals
    decreases |vals|
  {
    if vals == [] then None
    else if vals[0].signer == a then Some(vals[0])
    else
      var r := Find(vals[1..], a);
      assert HasSigner(vals, a) ==> HasSigner(vals[1..], a) by {
        if HasSigner(vals, a) {
          var j :| 0 <= j < |vals| && vals[j].signer == a;
          assert vals[1..][j - 1] == vals[j];
        }
      }
      assert HasSigner(vals[1..], a) ==> HasSigner(vals, a) by {
        if HasSigner(vals[1..], a) {
          var j :| 0 <= j < |vals[1..]| && vals[1..][j].signer == a;
          assert vals[j + 1] == vals[1..][j];
        }
      }
      r
  }

  lemma HasSignerConcat(a: seq<Validator>, b: seq<Validator>, x: Address)
    ensures HasSigner(a + b, x) <==> HasSigner(a, x) || HasSigner(b, x)
  {
    if HasSigner(a + b, x) {
      var j :| 0 <= j < |a + b| && (a + b)[j].signer == x;
      if j < |a| {
        assert a[j] == (a + b)[j];
      } else {
        assert b[j - |a|] == (a + b)[j];
      }
    }
    if HasSigner(a, x) {
      var j :| 0 <= j < |a| && a[j].signer == x;
      assert (a + b)[j] == a[j];
    }
    if HasSigner(b, x) {
      var j :| 0 <= j < |b| && b[j].signer == x;
      assert (a + b)[|a| + j] == b[j];
    }
  }

  /** In a sequence unique by signer, looking up an entry's signer finds that entry. */
  lemma {:induction false} FindUnique(vals: seq<Validator>, k: nat)
    requires UniqueSigners(vals)
    requires k < |vals|
    ensures Find(vals, vals[k].signer) == Some(vals[k])
    decreases |vals|
  {
    if k > 0 {
      assert vals[0].signer != vals[k].signer;
      assert vals[1..][k - 1] == vals[k];
      FindUnique(vals[1..], k - 1);
    }
  }

  lemma FindMember(vals: seq<Validator>, x: Validator)
    requires UniqueSigners(vals)
    requires x in vals
    ensures Find(vals, x.signer) == Some(x)
  {
    var k :| 0 <= k < |vals| && vals[k] == x;
    FindUnique(vals, k);
  }

  lemma {:induction false} PowerSumConcat(a: seq<Validator>, b: seq<Validator>)
    ensures PowerSum(a + b) == PowerSum(a) + PowerSum(b)
    decreases |a|
  {
    if a == [] {
      assert a + b == b;
    } else {
      assert (a + b)[1..] == a[1..] + b;
      PowerSumConcat(a[1..], b);
    }
  }

  /** Taking the entry at `i` out of a sequence takes its power out of the sum. */
  lemma PowerSumRemove(s: seq<Validator>, i: nat)
    requires i < |s|
    ensures PowerSum(s[..i] + s[i + 1..]) + s[i].power == PowerSum(s)
  {
    assert s == s[..i] + ([s[i]] + s[i + 1..]);
    assert ([s[i]] + s[i + 1..])[1..] == s[i + 1..];
    PowerSumConcat(s[..i], [s[i]] + s[i + 1..]);
    PowerSumConcat(s[..i], s[i + 1..]);
  }

  /** Replacing the entry at `i` changes the sum by the difference of the two powers. */
  lemma PowerSumReplace(s: seq<Validator>, i: nat, v: Validator)
    requires i < |s|
    ensures PowerSum(s[i := v]) + s[i].power == PowerSum(s) + v.power
  {
    PowerSumRemove(s, i);
    PowerSumRemove(s[i := v], i);
    assert s[i := v][..i] == s[..i];
    assert s[i := v][i + 1..] == s[i + 1..];
  }
}
