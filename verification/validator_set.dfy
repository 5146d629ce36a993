/** The validator set: members in order, unique by signer, with the total voting power
    cached beside them. */
module ValidatorSets {
  import opened Outcomes
  import opened Validators

  datatype ValidatorSet = ValidatorSet(validators: seq<Validator>, totalVotingPower: nat) {

    /** Members are unique by signer and the cached total is the live sum of their power. */
    predicate Valid() {
      UniqueSigners(validators) && totalVotingPower == PowerSum(validators)
    }
  }

  /** The validator sets that can occur: every operation below keeps the invariant. */
  type ValidSet = s: ValidatorSet | s.Valid() witness ValidatorSet([], 0)

  datatype SetError = ErrDuplicateSigner

  /** The position of the member with the given signer, or -1. */
  function IndexOf(vals: seq<Validator>, a: Address): (i: int)
    ensures -1 <= i < |vals|
    ensures i == -1 <==> !HasSigner(vals, a)
    ensures 0 <= i ==> vals[i].signer == a
    decreases |vals|
  {
    if vals == [] then -1
    else if vals[0].signer == a then 0
    else
      var i := IndexOf(vals[1..], a);
      HasSignerConcat([vals[0]], vals[1..], a);
      assert vals == [vals[0]] + vals[1..];
      if i == -1 then -1 else i + 1
  }

  /** `Find` and `IndexOf` agree: both name the first member with the signer. */
  lemma {:induction false} FindIsIndexOf(vals: seq<Validator>, a: Address)
    ensures Find(vals, a) == if IndexOf(vals, a) == -1 then None else Some(vals[IndexOf(vals, a)])
    decreases |vals|
  {
    if vals != [] && vals[0].signer != a {
      FindIsIndexOf(vals[1..], a);
    }
  }

  /** `GetByAddress`: the member's index and a copy of it, or index -1 and nothing. */
  function GetByAddress(vs: ValidSet, a: Address): (r: (int, Option<Validator>))
    ensures r.0 == -1 <==> !HasSigner(vs.validators, a)
    ensures r.0 == -1 <==> r.1.None?
    ensures r.1.Some? ==> 0 <= r.0 < |vs.validators| && r.1.value == vs.validators[r.0] && r.1.value.signer == a
  {
    var i := IndexOf(vs.validators, a);
    if i == -1 then (-1, None) else (i, Some(vs.validators[i]))
  }

  function HasAddress(vs: ValidSet, a: Address): (b: bool)
    ensures b <==> exists j | 0 <= j < |vs.validators| :: vs.validators[j].signer == a
  {
    IndexOf(vs.validators, a) != -1
  }

  /** `TotalVotingPower`: the cached total, which is always the sum over the members. */
  function TotalVotingPower(vs: ValidSet): (t: nat)
    ensures t == PowerSum(vs.validators)
  {
    vs.totalVotingPower
  }

  /** Append a member whose signer is new to the set. */
  function Append(vs: ValidSet, v: Validator): (r: ValidSet)
    requires !HasSigner(vs.validators, v.signer)
    ensures r.validators == vs.validators + [v]
    ensures forall a :: HasSigner(r.validators, a) ==> HasSigner(vs.validators, a) || a == v.signer
  {
    forall a | HasSigner(vs.validators + [v], a) ensures HasSigner(vs.validators, a) || a == v.signer {
      HasSignerConcat(vs.validators, [v], a);
    }
    PowerSumConcat(vs.validators, [v]);
    assert PowerSum([v]) == v.power;
    ValidatorSet(vs.validators + [v], vs.totalVotingPower + v.power)
  }

  /** Take out the member at `i`, keeping the others in order. */
  function RemoveAt(vs: ValidSet, i: nat): (r: ValidSet)
    requires i < |vs.validators|
    ensures r.validators == vs.validators[..i] + vs.validators[i + 1..]
    ensures forall a :: HasSigner(r.validators, a) ==> HasSigner(vs.validators, a)
  {
    var s := vs.validators;
    PowerSumRemove(s, i);
    var s' := s[..i] + s[i + 1..];
    assert forall j | 0 <= j < |s'| :: s'[j] == if j < i then s[j] else s[j + 1];
    forall a | HasSigner(s', a) ensures HasSigner(s, a) {
      var j :| 0 <= j < |s'| && s'[j].signer == a;
      if j < i { assert s[j] == s'[j]; } else { assert s[j + 1] == s'[j]; }
    }
    ValidatorSet(s', vs.totalVotingPower - s[i].power)
  }

  /** Replace the member at `i` with a record for the same signer. */
  function ReplaceAt(vs: ValidSet, i: nat, v: Validator): (r: ValidSet)
    requires i < |vs.validators|
    requires vs.validators[i].signer == v.signer
    ensures r.validators == vs.validators[i := v]
    ensures r.validators == vs.validators[..i] + [v] + vs.validators[i + 1..]
    ensures forall a :: HasSigner(r.validators, a) ==> HasSigner(vs.validators, a)
  {
    var s := vs.validators;
    var t := s[..i] + [v] + s[i + 1..];
    forall k | 0 <= k < |s| ensures t[k] == s[i := v][k] {
      if k < i {
        assert t[k] == s[..i][k];
      } else if k > i {
        assert t[k] == s[i + 1..][k - i - 1];
      }
    }
    forall a | HasSigner(s[i := v], a) ensures HasSigner(s, a) {
      var j :| 0 <= j < |s| && s[i := v][j].signer == a;
      assert s[j].signer == a;
    }
    PowerSumReplace(vs.validators, i, v);
    ValidatorSet(vs.validators[i := v], vs.totalVotingPower + v.power - vs.validators[i].power)
  }

  /** `Add`: insert a validator whose signer is not yet a member; a duplicate signer is refused. */
  function Add(vs: ValidSet, v: Validator): (r: Result<ValidSet, SetError>)
    ensures r.Failure? <==> HasAddress(vs, v.signer)
    ensures r.Success? ==> r.value.validators == vs.validators + [v]
    ensures r.Success? ==> HasAddress(r.value, v.signer)
    ensures r.Success? ==> TotalVotingPower(r.value) == TotalVotingPower(vs) + v.power
  {
    if HasAddress(vs, v.signer) then Failure(ErrDuplicateSigner)
    else
      var r := Append(vs, v);
      assert r.validators[|vs.validators|] == v;
      PowerSumConcat(vs.validators, [v]);
      assert PowerSum([v]) == v.power;
      Success(r)
  }
}
