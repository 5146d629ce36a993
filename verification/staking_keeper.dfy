/** The staking keeper's validator store: records keyed by signer, an index from validator ID
    to its current signer, and the last reconciled validator set. */
module StakingKeeper {
  import opened Outcomes
  import opened Validators
  import opened ValidatorSets

  datatype StakingError = ErrNoValidator | ErrSignerConflict

  datatype Store = Store(
    validators: map<Address, Validator>,
    signerById: map<nat, Address>,
    validatorSet: ValidSet)
  {
    /** Each record sits under its own signer, the ID index points at a record of that ID, and
        every record's ID is indexed. */
    predicate Valid() {
      && (forall a | a in validators :: validators[a].signer == a)
      && (forall id | id in signerById :: signerById[id] in validators && validators[signerById[id]].id == id)
      && (forall a | a in validators :: validators[a].id in signerById)
    }
  }

  /** The stores the keeper operations can produce. */
  type Keeper = s: Store | s.Valid() witness Store(map[], map[], ValidatorSet([], 0))

  /** `GetValidatorInfo`: the record stored under a signer. */
  function GetValidatorInfo(st: Keeper, a: Address): (r: Result<Validator, StakingError>)
    ensures r.Failure? <==> a !in st.validators
    ensures r.Failure? ==> r.error == ErrNoValidator
    ensures r.Success? ==> r.value.signer == a
  {
    if a in st.validators then Success(st.validators[a]) else Failure(ErrNoValidator)
  }

  /** `GetSignerFromValidatorID`: the current signer of a validator ID, if it is mapped. */
  function GetSignerFromValidatorID(st: Keeper, id: nat): (r: Option<Address>)
    ensures r.None? <==> id !in st.signerById
    // the index only ever names a stored record of the same ID
    ensures r.Some? ==> GetValidatorInfo(st, r.value).Success? && GetValidatorInfo(st, r.value).value.id == id
  {
    if id in st.signerById then Some(st.signerById[id]) else None
  }

  /** `AddValidator`: upsert a record under its signer and point its ID at that signer. A
      signer whose record belongs to a different ID is refused. */
  function AddValidator(st: Keeper, v: Validator): (r: Result<Keeper, StakingError>)
    ensures r.Failure? <==> v.signer in st.validators && st.validators[v.signer].id != v.id
    ensures r.Failure? ==> r.error == ErrSignerConflict
    // the record reads back exactly, and its ID maps to its signer
    ensures r.Success? ==> GetValidatorInfo(r.value, v.signer) == Success(v)
    ensures r.Success? ==> GetSignerFromValidatorID(r.value, v.id) == Some(v.signer)
    // no other record is touched, none is deleted, and the stored set is kept
    ensures r.Success? ==> forall a | a != v.signer :: GetValidatorInfo(r.value, a) == GetValidatorInfo(st, a)
    ensures r.Success? ==> r.value.validators.Keys == st.validators.Keys + {v.signer}
    ensures r.Success? ==> r.value.validatorSet == st.validatorSet
    // every other ID keeps its signer
    ensures r.Success? ==> forall id | id != v.id :: GetSignerFromValidatorID(r.value, id) == GetSignerFromValidatorID(st, id)
  {
    if v.signer in st.validators && st.validators[v.signer].id != v.id then
      Failure(ErrSignerConflict)
    else
      Success(Store(st.validators[v.signer := v], st.signerById[v.id := v.signer], st.validatorSet))
  }

  /** `UpdateSigner`: rekey the validator stored under `oldSigner` to `newSigner`. The old
      record is written back with power 0, then a copy under the new signer and public key
      keeps the power, and the ID moves to the new signer. Either both writes happen or none. */
  function UpdateSigner(st: Keeper, newSigner: Address, newPubKey: PubKey, oldSigner: Address)
    : (r: Result<Keeper, StakingError>)
    ensures r.Failure? <==>
              || oldSigner !in st.validators
              || (newSigner in st.validators && st.validators[newSigner].id != st.validators[oldSigner].id)
    // a missing old signer is no-validator; a new signer taken by another ID is a signer conflict
    ensures r.Failure? ==> r.error == (if oldSigner !in st.validators then ErrNoValidator else ErrSignerConflict)
    ensures r.Success? && newSigner != oldSigner ==>
              var prev := st.validators[oldSigner];
              && GetValidatorInfo(r.value, oldSigner) == Success(prev.(power := 0))
              && GetValidatorInfo(r.value, newSigner) == Success(prev.(signer := newSigner, pubKey := newPubKey))
    // rekeying to the same signer: power 0 is overwritten by the old power, so only the key changes
    ensures r.Success? && newSigner == oldSigner ==>
              GetValidatorInfo(r.value, oldSigner) == Success(st.validators[oldSigner].(pubKey := newPubKey))
    // the ID moves to the new signer, and every other ID keeps its signer
    ensures r.Success? ==> GetSignerFromValidatorID(r.value, st.validators[oldSigner].id) == Some(newSigner)
    ensures r.Success? ==>
              forall id | id != st.validators[oldSigner].id ::
                GetSignerFromValidatorID(r.value, id) == GetSignerFromValidatorID(st, id)
    // nothing is deleted: the store gains the new signer and keeps the old one
    ensures r.Success? ==> r.value.validators.Keys == st.validators.Keys + {newSigner}
    ensures r.Success? ==> forall a | a != oldSigner && a != newSigner :: GetValidatorInfo(r.value, a) == GetValidatorInfo(st, a)
    // the stored validator set is kept
    ensures r.Success? ==> r.value.validatorSet == st.validatorSet
  {
    if oldSigner !in st.validators then Failure(ErrNoValidator)
    else
      var prev := st.validators[oldSigner];
      var retired := Retire(st, oldSigner);
      var rekeyed := prev.(signer := newSigner, pubKey := newPubKey);
      RekeyConflict(st, retired, oldSigner, rekeyed);
      RekeyWrites(st, retired, oldSigner, rekeyed);
      var r := AddValidator(retired, rekeyed);
      if r.Success? then RekeyReads(st, newSigner, newPubKey, oldSigner, r.value); r else r
  }

  /** What reads of the store see after both writes of a successful `UpdateSigner`. */
  lemma RekeyReads(st: Keeper, newSigner: Address, newPubKey: PubKey, oldSigner: Address, st1: Keeper)
    requires oldSigner in st.validators
    requires var prev := st.validators[oldSigner];
             st1.validators == st.validators[oldSigner := prev.(power := 0)][newSigner := prev.(signer := newSigner, pubKey := newPubKey)]
    requires st1.signerById == st.signerById[st.validators[oldSigner].id := newSigner]
    ensures newSigner != oldSigner ==>
              var prev := st.validators[oldSigner];
              && GetValidatorInfo(st1, oldSigner) == Success(prev.(power := 0))
              && GetValidatorInfo(st1, newSigner) == Success(prev.(signer := newSigner, pubKey := newPubKey))
    ensures newSigner == oldSigner ==>
              GetValidatorInfo(st1, oldSigner) == Success(st.validators[oldSigner].(pubKey := newPubKey))
    ensures GetSignerFromValidatorID(st1, st.validators[oldSigner].id) == Some(newSigner)
    ensures forall id | id != st.validators[oldSigner].id ::
              GetSignerFromValidatorID(st1, id) == GetSignerFromValidatorID(st, id)
    ensures st1.validators.Keys == st.validators.Keys + {newSigner}
    ensures forall a | a != oldSigner && a != newSigner :: GetValidatorInfo(st1, a) == GetValidatorInfo(st, a)
  {
  }

  /** The second write of `UpdateSigner` conflicts exactly when the new signer's record, before
      the rekey, belonged to another ID. */
  lemma RekeyConflict(st: Keeper, retired: Keeper, oldSigner: Address, rekeyed: Validator)
    requires oldSigner in st.validators
    requires retired.validators == st.validators[oldSigner := st.validators[oldSigner].(power := 0)]
    requires rekeyed.id == st.validators[oldSigner].id
    ensures AddValidator(retired, rekeyed).Failure? <==>
              rekeyed.signer in st.validators && st.validators[rekeyed.signer].id != rekeyed.id
  {
  }

  /** The second write of `UpdateSigner`, on top of the retired record. */
  lemma RekeyWrites(st: Keeper, retired: Keeper, oldSigner: Address, rekeyed: Validator)
    requires oldSigner in st.validators
    requires retired.validators == st.validators[oldSigner := st.validators[oldSigner].(power := 0)]
    requires retired.signerById == st.signerById[rekeyed.id := oldSigner]
    requires retired.validatorSet == st.validatorSet
    requires rekeyed.id == st.validators[oldSigner].id
    ensures AddValidator(retired, rekeyed).Success? ==>
              var r := AddValidator(retired, rekeyed).value;
              && r.validators == retired.validators[rekeyed.signer := rekeyed]
              && r.signerById == st.signerById[rekeyed.id := rekeyed.signer]
              && r.validatorSet == st.validatorSet
  {
    if AddValidator(retired, rekeyed).Success? {
      assert AddValidator(retired, rekeyed).value ==
        Store(retired.validators[rekeyed.signer := rekeyed], retired.signerById[rekeyed.id := rekeyed.signer], retired.validatorSet);
      assert retired.signerById[rekeyed.id := rekeyed.signer] == st.signerById[rekeyed.id := rekeyed.signer];
    }
  }

  /** The first write of `UpdateSigner`: the record under `oldSigner` at power 0. The record
      stored there already has that ID, so the write cannot conflict; it points the ID back at
      `oldSigner`. */
  function Retire(st: Keeper, oldSigner: Address): (r: Keeper)
    requires oldSigner in st.validators
    ensures r.validators == st.validators[oldSigner := st.validators[oldSigner].(power := 0)]
    ensures r.signerById == st.signerById[st.validators[oldSigner].id := oldSigner]
    ensures r.validatorSet == st.validatorSet
    ensures AddValidator(st, st.validators[oldSigner].(power := 0)) == Success(r)
  {
    AddValidator(st, st.validators[oldSigner].(power := 0)).value
  }

  /** The record map a successful `AddValidator` leaves. */
  lemma AddValidatorWrites(st: Keeper, v: Validator, st1: Keeper)
    requires AddValidator(st, v) == Success(st1)
    ensures st1.validators == st.validators[v.signer := v]
  {
  }

  /** The record map a successful `UpdateSigner` to a different signer leaves. */
  lemma UpdateSignerWrites(st: Keeper, newSigner: Address, newPubKey: PubKey, oldSigner: Address, st1: Keeper)
    requires UpdateSigner(st, newSigner, newPubKey, oldSigner) == Success(st1)
    requires newSigner != oldSigner
    ensures oldSigner in st.validators
    ensures var prev := st.validators[oldSigner];
            st1.validators == st.validators[oldSigner := prev.(power := 0)][newSigner := prev.(signer := newSigner, pubKey := newPubKey)]
  {
    var prev := st.validators[oldSigner];
    RekeyWrites(st, Retire(st, oldSigner), oldSigner, prev.(signer := newSigner, pubKey := newPubKey));
  }

  /** `IsCurrentValidatorByAddress` at the acknowledged-checkpoint count `ackCount`. */
  function IsCurrentValidatorByAddress(st: Keeper, a: Address, ackCount: nat): (b: bool)
    ensures b ==> a in st.validators
    ensures b ==> st.validators[a].power > 0
    ensures b ==> st.validators[a].startEpoch <= ackCount
    ensures b ==> st.validators[a].endEpoch == 0 || ackCount <= st.validators[a].endEpoch
    ensures a in st.validators && IsCurrentValidator(st.validators[a], ackCount) ==> b
  {
    match GetValidatorInfo(st, a)
    case Failure(_) => false
    case Success(v) => IsCurrentValidator(v, ackCount)
  }

  /** `GetValidatorSet`: the stored validator set. */
  function GetValidatorSet(st: Keeper): (vs: ValidSet)
  {
    st.validatorSet
  }

  /** `UpdateValidatorSetInStore`: store a validator set; it reads back unchanged and the
      records are untouched. */
  function UpdateValidatorSetInStore(st: Keeper, vs: ValidSet): (r: Keeper)
    ensures GetValidatorSet(r) == vs
    ensures r.validators == st.validators && r.signerById == st.signerById
  {
    st.(validatorSet := vs)
  }

  /** `all` lists every stored record once. */
  predicate Enumerates(all: seq<Validator>, st: Keeper) {
    && UniqueSigners(all)
    && (forall k | 0 <= k < |all| :: all[k].signer in st.validators && st.validators[all[k].signer] == all[k])
    && (forall a | a in st.validators :: HasSigner(all, a))
  }

  /** `GetAllValidators`: every stored record, once each. The store's iteration order is not
      modelled, so the order here is any order. */
  method GetAllValidators(st: Keeper) returns (all: seq<Validator>)
    ensures Enumerates(all, st)
    ensures |all| == |st.validators|
  {
    var remaining := st.validators.Keys;
    all := [];
    while remaining != {}
      invariant ListedExcept(all, st, remaining)
      decreases remaining
    {
      var a :| a in remaining;
      ListingStep(all, st, remaining, a);
      all := all + [st.validators[a]];
      remaining := remaining - {a};
    }
  }

  /** `all` lists, once each, exactly the stored records whose signers are not in `remaining`. */
  predicate ListedExcept(all: seq<Validator>, st: Keeper, remaining: set<Address>) {
    && remaining <= st.validators.Keys
    && UniqueSigners(all)
    && (forall k | 0 <= k < |all| ::
          all[k].signer in st.validators && all[k].signer !in remaining && st.validators[all[k].signer] == all[k])
    && (forall a | a in st.validators && a !in remaining :: HasSigner(all, a))
    && |all| + |remaining| == |st.validators|
  }

  lemma ListingStep(all: seq<Validator>, st: Keeper, remaining: set<Address>, a: Address)
    requires ListedExcept(all, st, remaining) && a in remaining
    ensures ListedExcept(all + [st.validators[a]], st, remaining - {a})
  {
    var v := st.validators[a];
    forall b | b in st.validators && b !in remaining - {a}
      ensures HasSigner(all + [v], b)
    {
      HasSignerConcat(all, [v], b);
      if b == a {
        assert (all + [v])[|all|].signer == b;
      }
    }
  }

  /** Looking a stored signer up in a listing of the store finds that signer's record. */
  lemma EnumerationFinds(all: seq<Validator>, st: Keeper)
    requires Enumerates(all, st)
    ensures forall a | a in st.validators :: Find(all, a) == Some(st.validators[a])
  {
    forall a | a in st.validators
      ensures Find(all, a) == Some(st.validators[a])
    {
      var k :| 0 <= k < |all| && all[k].signer == a;
      FindUnique(all, k);
    }
  }

  /** A listing of the store has exactly one entry per record. */
  lemma EnumerationSize(all: seq<Validator>, st: Keeper)
    requires Enumerates(all, st)
    ensures |all| == |st.validators|
  {
    SignerSetSize(all);
    assert SignerSet(all) == st.validators.Keys by {
      forall a | a in st.validators ensures a in SignerSet(all) {
        var k :| 0 <= k < |all| && all[k].signer == a;
      }
    }
  }

  function SignerSet(vals: seq<Validator>): set<Address> {
    set k | 0 <= k < |vals| :: vals[k].signer
  }

  lemma {:induction false} SignerSetSize(vals: seq<Validator>)
    requires UniqueSigners(vals)
    ensures |SignerSet(vals)| == |vals|
    decreases |vals|
  {
    if vals != [] {
      var rest := vals[1..];
      SignerSetSize(rest);
      assert SignerSet(vals) == {vals[0].signer} + SignerSet(rest) by {
        forall a | a in SignerSet(vals) ensures a in {vals[0].signer} + SignerSet(rest) {
          var k :| 0 <= k < |vals| && vals[k].signer == a;
          if k > 0 { assert rest[k - 1] == vals[k]; }
        }
        forall a | a in SignerSet(rest) ensures a in SignerSet(vals) {
          var k :| 0 <= k < |rest| && rest[k].signer == a;
          assert vals[k + 1] == rest[k];
        }
      }
      assert vals[0].signer !in SignerSet(rest) by {
        forall k | 0 <= k < |rest| ensures rest[k].signer != vals[0].signer {
          assert rest[k] == vals[k + 1];
        }
      }
    }
  }
}
