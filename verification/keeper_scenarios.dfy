/** The behaviour the staking keeper tests pin down (staking/keeper_test.go), stated for all
    stores, validator sets and epoch cursors of the shape each test builds. */
module KeeperScenarios {
  import opened Outcomes
  import opened Validators
  import opened ValidatorSets
  import opened StakingKeeper
  import opened Reconciliation

  /** The store holds exactly the set's members, each under its signer. */
  predicate Mirrors(st: Keeper, vs: ValidSet) {
    && (forall a | a in st.validators :: HasSigner(vs.validators, a))
    && (forall j | 0 <= j < |vs.validators| ::
          vs.validators[j].signer in st.validators && st.validators[vs.validators[j].signer] == vs.validators[j])
  }

  predicate AllCurrent(vs: ValidSet, ackCount: nat) {
    forall j | 0 <= j < |vs.validators| :: IsCurrentValidator(vs.validators[j], ackCount)
  }

  /** `all` lists the records of `m` once each, and looking a signer of `m` up in it finds
      that signer's record. */
  predicate Lists(all: seq<Validator>, m: map<Address, Validator>) {
    && UniqueSigners(all)
    && (forall k | 0 <= k < |all| :: all[k].signer in m && m[all[k].signer] == all[k])
    && (forall a | a in m :: Find(all, a) == Some(m[a]))
  }

  lemma Listing(all: seq<Validator>, st: Keeper)
    requires Enumerates(all, st)
    ensures Lists(all, st.validators)
  {
    EnumerationFinds(all, st);
  }

  /** The set `LoadValidatorSet` builds: each validator added in turn, a duplicate signer
      leaving the set as it was. */
  function AddAll(vs: ValidSet, vals: seq<Validator>): ValidSet
    decreases |vals|
  {
    if vals == [] then vs
    else
      var next := match Add(vs, vals[0]) case Success(r) => r case Failure(_) => vs;
      AddAll(next, vals[1..])
  }

  /** Adding validators with distinct new signers appends them all, in order. */
  lemma {:induction false} AddAllAppends(vs: ValidSet, vals: seq<Validator>)
    requires UniqueSigners(vs.validators + vals)
    ensures AddAll(vs, vals).validators == vs.validators + vals
    decreases |vals|
  {
    if vals != [] {
      var s := vs.validators;
      var t := s + vals;
      assert !HasSigner(s, vals[0].signer) by {
        forall j | 0 <= j < |s| ensures s[j].signer != vals[0].signer {
          assert t[j] == s[j] && t[|s|] == vals[0];
        }
      }
      var next := Add(vs, vals[0]).value;
      assert next.validators + vals[1..] == t;
      AddAllAppends(next, vals[1..]);
    }
  }

  /** The validator-set test: the set built from validators with distinct signers holds them
      in order with their summed power, and storing it reads it back unchanged. */
  lemma LoadValidatorSetScenario(st: Keeper, vals: seq<Validator>)
    requires UniqueSigners(vals)
    ensures AddAll(ValidatorSet([], 0), vals).validators == vals
    ensures TotalVotingPower(AddAll(ValidatorSet([], 0), vals)) == PowerSum(vals)
    ensures var vs := AddAll(ValidatorSet([], 0), vals);
            GetValidatorSet(UpdateValidatorSetInStore(st, vs)) == vs
  {
    assert [] + vals == vals;
    AddAllAppends(ValidatorSet([], 0), vals);
  }

  /** Adding a validator whose signer has no record: the add succeeds, the record reads back
      as the validator, and its ID maps to its signer. */
  lemma ValidatorScenario(st: Keeper, v: Validator)
    requires v.signer !in st.validators
    ensures AddValidator(st, v).Success?
    ensures GetValidatorInfo(AddValidator(st, v).value, v.signer) == Success(v)
    ensures GetSignerFromValidatorID(AddValidator(st, v).value, v.id) == Some(v.signer)
  {
  }

  /** Rekeying the only stored validator (the store as the test leaves it after adding one
      validator): the old signer keeps a record at power 0, the new signer's record has the
      original power, the ID maps to the new signer, and a listing of the store has two
      records. */
  lemma UpdateSignerScenario(st: Keeper, v: Validator, newSigner: Address, newPubKey: PubKey,
                             st1: Keeper, all: seq<Validator>)
    requires st.validators == map[v.signer := v]
    requires newSigner != v.signer
    requires UpdateSigner(st, newSigner, newPubKey, v.signer) == Success(st1)
    requires Enumerates(all, st1)
    ensures GetValidatorInfo(st1, v.signer).Success? && GetValidatorInfo(st1, v.signer).value.power == 0
    ensures GetValidatorInfo(st1, newSigner).Success? && GetValidatorInfo(st1, newSigner).value.power == v.power
    ensures GetSignerFromValidatorID(st1, v.id) == Some(newSigner)
    ensures |all| == 2
  {
    assert st1.validators.Keys == {v.signer, newSigner};
    TwoRecords(st1, v.signer, newSigner, all);
  }

  lemma TwoRecords(st: Keeper, a: Address, b: Address, all: seq<Validator>)
    requires a != b && st.validators.Keys == {a, b}
    requires Enumerates(all, st)
    ensures |all| == 2
  {
    EnumerationSize(all, st);
    assert |st.validators.Keys| == 2;
  }

  /** The two rows of the current-validator table: (start epoch, power, ack count). The test
      sets the end epoch equal to the start epoch. */
  const CurrentValidatorRows: seq<(nat, nat, nat)> := [(0, 0, 1), (3, 10, 1)]

  /** Neither row yields a current validator: one has no power, the other starts after the
      ack count. */
  lemma CurrentValidatorScenario(st: Keeper, row: nat, signer: Address, pubKey: PubKey, st1: Keeper)
    requires row < |CurrentValidatorRows|
    requires var (start, power, _) := CurrentValidatorRows[row];
             AddValidator(st, Validator(1 + row, start, start, power, pubKey, signer, 0)) == Success(st1)
    ensures !IsCurrentValidatorByAddress(st1, signer, CurrentValidatorRows[row].2)
  {
    var (start, power, _) := CurrentValidatorRows[row];
    assert GetValidatorInfo(st1, signer) == Success(Validator(1 + row, start, start, power, pubKey, signer, 0));
  }

  /** Exactly one record joins. */
  lemma {:induction false} JoinersSingle(all: seq<Validator>, members: seq<Validator>, ackCount: nat, x: Validator)
    requires UniqueSigners(all)
    requires x in all && IsCurrentValidator(x, ackCount) && !HasSigner(members, x.signer)
    requires forall k | 0 <= k < |all| ::
               IsCurrentValidator(all[k], ackCount) && !HasSigner(members, all[k].signer) ==> all[k] == x
    ensures Joiners(all, members, ackCount) == [x]
    decreases |all|
  {
    UniqueTail(all);
    var rest := all[1..];
    if all[0] == x {
      forall k | 0 <= k < |rest| && IsCurrentValidator(rest[k], ackCount)
        ensures HasSigner(members, rest[k].signer)
      {
        assert rest[k] == all[k + 1];
        assert rest[k].signer != x.signer by {
          assert all[k + 1].signer != all[0].signer;
        }
      }
      JoinersNone(rest, members, ackCount);
    } else {
      forall k | 0 <= k < |rest|
        ensures IsCurrentValidator(rest[k], ackCount) && !HasSigner(members, rest[k].signer) ==> rest[k] == x
      {
        assert rest[k] == all[k + 1];
      }
      JoinersSingle(rest, members, ackCount, x);
    }
  }

  /** Survivors whose records are current and carry the members' power keep the count and the
      total power. */
  lemma {:induction false} SurvivorsKeepPower(t: seq<Validator>, all: seq<Validator>, ackCount: nat)
    requires forall j | 0 <= j < |t| ::
               && Find(all, t[j].signer).Some?
               && Find(all, t[j].signer).value.power == t[j].power
               && IsCurrentValidator(Find(all, t[j].signer).value, ackCount)
    ensures |Survivors(t, all, ackCount)| == |t|
    ensures PowerSum(Survivors(t, all, ackCount)) == PowerSum(t)
    decreases |t|
  {
    if t != [] {
      forall j | 0 <= j < |t[1..]|
        ensures && Find(all, t[1..][j].signer).Some?
                && Find(all, t[1..][j].signer).value.power == t[1..][j].power
                && IsCurrentValidator(Find(all, t[1..][j].signer).value, ackCount)
      {
        assert t[1..][j] == t[j + 1];
      }
      SurvivorsKeepPower(t[1..], all, ackCount);
      var v := Find(all, t[0].signer).value;
      var rest := Survivors(t[1..], all, ackCount);
      assert Survivors(t, all, ackCount) == [v] + rest;
      assert ([v] + rest)[1..] == rest;
    }
  }

  /** Removal: the first member's record is rewritten with start epoch 20, past the ack count.
      Reconciling drops exactly that member and keeps the rest as they were, in order. */
  lemma RemoveScenario(st: Keeper, vs: ValidSet, ackCount: nat, st1: Keeper, all: seq<Validator>)
    requires Mirrors(st, vs) && AllCurrent(vs, ackCount)
    requires |vs.validators| > 0
    requires ackCount < 20
    requires AddValidator(st, vs.validators[0].(startEpoch := 20)) == Success(st1)
    requires Enumerates(all, st1)
    ensures |UpdateValidators(vs, all, ackCount).validators| == |vs.validators| - 1
    ensures UpdateValidators(vs, all, ackCount).validators == vs.validators[1..]
  {
    AddValidatorWrites(st, vs.validators[0].(startEpoch := 20), st1);
    Listing(all, st1);
    RemoveReconciled(st.validators, vs, ackCount, st1.validators, all);
  }

  /** Reconciling against the records of a mirrored store in which the first member's record
      has been moved past the ack count drops exactly that member. */
  lemma RemoveReconciled(records: map<Address, Validator>, vs: ValidSet, ackCount: nat,
                         m: map<Address, Validator>, all: seq<Validator>)
    requires |vs.validators| > 0
    requires forall a | a in records :: HasSigner(vs.validators, a)
    requires forall j | 0 <= j < |vs.validators| ::
               vs.validators[j].signer in records && records[vs.validators[j].signer] == vs.validators[j]
    requires AllCurrent(vs, ackCount)
    requires ackCount < 20
    requires m == records[vs.validators[0].signer := vs.validators[0].(startEpoch := 20)]
    requires Lists(all, m)
    ensures UpdateValidators(vs, all, ackCount).validators == vs.validators[1..]
  {
    var s := vs.validators;
    RemoveLookups(records, s, ackCount, m, all);
    UpdateValidatorsMatchesReference(vs, all, ackCount);
    assert s == [s[0]] + s[1..];
    SurvivorsConcat([s[0]], s[1..], all, ackCount);
    SurvivorsSingle(s[0], all, ackCount);
    forall j | 0 <= j < |s[1..]| ensures Settled(s[1..][j], all, ackCount) {
      assert s[1..][j] == s[j + 1];
    }
    SurvivorsOfSettled(s[1..], all, ackCount);
    JoinersNone(all, s, ackCount);
  }

  /** What the listing says after the first member's record moved past the ack count: that
      record is found and not current, the other members are settled, and every current record
      belongs to a member. */
  lemma RemoveLookups(records: map<Address, Validator>, s: seq<Validator>, ackCount: nat,
                      m: map<Address, Validator>, all: seq<Validator>)
    requires |s| > 0 && UniqueSigners(s)
    requires forall a | a in records :: HasSigner(s, a)
    requires forall j | 0 <= j < |s| :: s[j].signer in records && records[s[j].signer] == s[j]
    requires forall j | 0 <= j < |s| :: IsCurrentValidator(s[j], ackCount)
    requires ackCount < 20
    requires m == records[s[0].signer := s[0].(startEpoch := 20)]
    requires forall k | 0 <= k < |all| :: all[k].signer in m && m[all[k].signer] == all[k]
    requires forall a | a in m :: Find(all, a) == Some(m[a])
    ensures Find(all, s[0].signer) == Some(s[0].(startEpoch := 20))
    ensures forall j | 1 <= j < |s| :: Settled(s[j], all, ackCount)
    ensures forall k | 0 <= k < |all| :: IsCurrentValidator(all[k], ackCount) ==> HasSigner(s, all[k].signer)
  {
    forall j | 1 <= j < |s| ensures Settled(s[j], all, ackCount) {
      assert s[j].signer != s[0].signer;
      assert m[s[j].signer] == s[j];
    }
    assert HasSigner(s, s[0].signer);
    CurrentRecordsAreMembers(records, s, m, s[0].signer, s[0].(startEpoch := 20), ackCount, all);
  }

  /** Every current record in a listing of `records` with one entry rewritten to a record that
      is not current belongs to a member. */
  lemma CurrentRecordsAreMembers(records: map<Address, Validator>, s: seq<Validator>, m: map<Address, Validator>,
                                 a: Address, retired: Validator, ackCount: nat, all: seq<Validator>)
    requires forall b | b in records :: HasSigner(s, b)
    requires HasSigner(s, a) && !IsCurrentValidator(retired, ackCount)
    requires m == records[a := retired]
    requires forall k | 0 <= k < |all| :: all[k].signer in m && m[all[k].signer] == all[k]
    ensures forall k | 0 <= k < |all| :: IsCurrentValidator(all[k], ackCount) ==> HasSigner(s, all[k].signer)
  {
    forall k | 0 <= k < |all| && IsCurrentValidator(all[k], ackCount)
      ensures HasSigner(s, all[k].signer)
    {
      assert all[k].signer in m;
    }
  }

  /** Addition: a current validator with a new signer is stored. Reconciling grows the set by
      one, makes the newcomer a member, and adds exactly its power to the total. */
  lemma AddScenario(st: Keeper, vs: ValidSet, ackCount: nat, newcomer: Validator, st1: Keeper, all: seq<Validator>)
    requires Mirrors(st, vs) && AllCurrent(vs, ackCount)
    requires IsCurrentValidator(newcomer, ackCount) && !HasAddress(vs, newcomer.signer)
    requires AddValidator(st, newcomer) == Success(st1)
    requires Enumerates(all, st1)
    ensures |UpdateValidators(vs, all, ackCount).validators| == |vs.validators| + 1
    ensures HasAddress(UpdateValidators(vs, all, ackCount), newcomer.signer)
    ensures TotalVotingPower(UpdateValidators(vs, all, ackCount)) == TotalVotingPower(vs) + newcomer.power
  {
    AddValidatorWrites(st, newcomer, st1);
    Listing(all, st1);
    AddReconciled(st.validators, vs, ackCount, newcomer, st1.validators, all);
    var r := UpdateValidators(vs, all, ackCount);
    assert r.validators[|vs.validators|] == newcomer;
  }

  /** Reconciling against the records of a mirrored store plus one current newcomer appends
      exactly the newcomer. */
  lemma AddReconciled(records: map<Address, Validator>, vs: ValidSet, ackCount: nat, newcomer: Validator,
                      m: map<Address, Validator>, all: seq<Validator>)
    requires forall a | a in records :: HasSigner(vs.validators, a)
    requires forall j | 0 <= j < |vs.validators| ::
               vs.validators[j].signer in records && records[vs.validators[j].signer] == vs.validators[j]
    requires AllCurrent(vs, ackCount)
    requires IsCurrentValidator(newcomer, ackCount) && !HasSigner(vs.validators, newcomer.signer)
    requires m == records[newcomer.signer := newcomer]
    requires Lists(all, m)
    ensures UpdateValidators(vs, all, ackCount).validators == vs.validators + [newcomer]
    ensures TotalVotingPower(UpdateValidators(vs, all, ackCount)) == TotalVotingPower(vs) + newcomer.power
  {
    var s := vs.validators;
    AddLookups(records, s, ackCount, newcomer, m, all);
    UpdateValidatorsMatchesReference(vs, all, ackCount);
    SurvivorsOfSettled(s, all, ackCount);
    JoinersSingle(all, s, ackCount, newcomer);
    PowerSumConcat(s, [newcomer]);
    assert PowerSum([newcomer]) == newcomer.power;
  }

  /** What the listing says after a newcomer was stored: every member is settled, and the
      newcomer is the only current record of a non-member. */
  lemma AddLookups(records: map<Address, Validator>, s: seq<Validator>, ackCount: nat, newcomer: Validator,
                   m: map<Address, Validator>, all: seq<Validator>)
    requires forall a | a in records :: HasSigner(s, a)
    requires forall j | 0 <= j < |s| :: s[j].signer in records && records[s[j].signer] == s[j]
    requires forall j | 0 <= j < |s| :: IsCurrentValidator(s[j], ackCount)
    requires !HasSigner(s, newcomer.signer)
    requires m == records[newcomer.signer := newcomer]
    requires Lists(all, m)
    ensures forall j | 0 <= j < |s| :: Settled(s[j], all, ackCount)
    ensures newcomer in all
    ensures forall k | 0 <= k < |all| ::
              IsCurrentValidator(all[k], ackCount) && !HasSigner(s, all[k].signer) ==> all[k] == newcomer
  {
    forall j | 0 <= j < |s| ensures Settled(s[j], all, ackCount) {
      assert s[j].signer != newcomer.signer by { assert HasSigner(s, s[j].signer); }
      assert m[s[j].signer] == s[j];
    }
    assert Find(all, newcomer.signer) == Some(newcomer);
    forall k | 0 <= k < |all| && IsCurrentValidator(all[k], ackCount) && !HasSigner(s, all[k].signer)
      ensures all[k] == newcomer
    {
      assert all[k].signer in m;
      assert all[k].signer !in records;
    }
  }

  /** Rekey: the first member's signer is replaced in the store. Reconciling keeps the size and
      the total power, drops the old signer, and holds the new signer with the new public key.
      The set's members need only agree with their records in power: their accumulators may
      have moved on, and reconciling resets them to the records' values. */
  lemma RekeyScenario(st: Keeper, vs: ValidSet, ackCount: nat, newSigner: Address, newPubKey: PubKey,
                      st1: Keeper, all: seq<Validator>)
    requires |vs.validators| > 0
    requires forall a | a in st.validators :: HasSigner(vs.validators, a)
    requires forall j | 0 <= j < |vs.validators| ::
               && vs.validators[j].signer in st.validators
               && st.validators[vs.validators[j].signer].power == vs.validators[j].power
               && IsCurrentValidator(st.validators[vs.validators[j].signer], ackCount)
    requires newSigner !in st.validators
    requires UpdateSigner(st, newSigner, newPubKey, vs.validators[0].signer) == Success(st1)
    requires Enumerates(all, st1)
    ensures |UpdateValidators(vs, all, ackCount).validators| == |vs.validators|
    ensures GetByAddress(UpdateValidators(vs, all, ackCount), vs.validators[0].signer).0 == -1
    ensures var found := GetByAddress(UpdateValidators(vs, all, ackCount), newSigner).1;
            found.Some? && found.value.pubKey == newPubKey && found.value.id == st.validators[vs.validators[0].signer].id
    ensures TotalVotingPower(UpdateValidators(vs, all, ackCount)) == TotalVotingPower(vs)
  {
    assert vs.validators[0].signer in st.validators;
    UpdateSignerWrites(st, newSigner, newPubKey, vs.validators[0].signer, st1);
    RekeyedStore(st.validators, vs, ackCount, newSigner, newPubKey, st1, all);
  }

  /** The rekey scenario stated over the record map the rekey leaves. */
  lemma RekeyedStore(records: map<Address, Validator>, vs: ValidSet, ackCount: nat, newSigner: Address,
                     newPubKey: PubKey, st1: Keeper, all: seq<Validator>)
    requires |vs.validators| > 0
    requires forall a | a in records :: HasSigner(vs.validators, a)
    requires forall j | 0 <= j < |vs.validators| ::
               && vs.validators[j].signer in records
               && records[vs.validators[j].signer].power == vs.validators[j].power
               && IsCurrentValidator(records[vs.validators[j].signer], ackCount)
    requires newSigner !in records
    requires var prev := records[vs.validators[0].signer];
             st1.validators == records[vs.validators[0].signer := prev.(power := 0)]
                                      [newSigner := prev.(signer := newSigner, pubKey := newPubKey)]
    requires Enumerates(all, st1)
    ensures |UpdateValidators(vs, all, ackCount).validators| == |vs.validators|
    ensures GetByAddress(UpdateValidators(vs, all, ackCount), vs.validators[0].signer).0 == -1
    ensures var found := GetByAddress(UpdateValidators(vs, all, ackCount), newSigner).1;
            found.Some? && found.value.pubKey == newPubKey && found.value.id == records[vs.validators[0].signer].id
    ensures TotalVotingPower(UpdateValidators(vs, all, ackCount)) == TotalVotingPower(vs)
  {
    Listing(all, st1);
    var _ := RekeyReconciled(records, vs, ackCount, newSigner, newPubKey, st1.validators, all);
  }

  /** In a set that ends with `x` and has neither `x`'s signer nor `o` before it, `x` is found
      under its signer and `o` is not found. */
  lemma LastLookup(r: ValidSet, kept: seq<Validator>, x: Validator, o: Address)
    requires r.validators == kept + [x]
    requires !HasSigner(kept, x.signer) && !HasSigner(kept, o) && o != x.signer
    ensures GetByAddress(r, o).0 == -1
    ensures GetByAddress(r, x.signer).1 == Some(x)
  {
    HasSignerConcat(kept, [x], o);
    HasSignerSingle(x, o);
    assert r.validators[|kept|] == x;
  }

  /** Reconciling against a store in which the first member's signer has been rekeyed: the
      other members survive with their power, the old signer is gone, and the rekeyed record
      is appended. */
  lemma RekeyReconciled(records: map<Address, Validator>, vs: ValidSet, ackCount: nat, newSigner: Address,
                        newPubKey: PubKey, m: map<Address, Validator>, all: seq<Validator>)
    returns (kept: seq<Validator>)
    requires |vs.validators| > 0
    requires forall a | a in records :: HasSigner(vs.validators, a)
    requires forall j | 0 <= j < |vs.validators| ::
               && vs.validators[j].signer in records
               && records[vs.validators[j].signer].power == vs.validators[j].power
               && IsCurrentValidator(records[vs.validators[j].signer], ackCount)
    requires newSigner !in records
    requires var prev := records[vs.validators[0].signer];
             m == records[vs.validators[0].signer := prev.(power := 0)]
                                      [newSigner := prev.(signer := newSigner, pubKey := newPubKey)]
    requires Lists(all, m)
    ensures var prev := records[vs.validators[0].signer];
            UpdateValidators(vs, all, ackCount).validators == kept + [prev.(signer := newSigner, pubKey := newPubKey)]
    ensures |kept| + 1 == |vs.validators|
    ensures !HasSigner(kept, vs.validators[0].signer) && !HasSigner(kept, newSigner)
    ensures GetByAddress(UpdateValidators(vs, all, ackCount), vs.validators[0].signer).0 == -1
    ensures GetByAddress(UpdateValidators(vs, all, ackCount), newSigner).1 ==
              Some(records[vs.validators[0].signer].(signer := newSigner, pubKey := newPubKey))
    ensures TotalVotingPower(UpdateValidators(vs, all, ackCount)) == TotalVotingPower(vs)
  {
    var s := vs.validators;
    var prev := records[s[0].signer];
    var newRec := prev.(signer := newSigner, pubKey := newPubKey);
    RekeyLookups(records, s, ackCount, newSigner, newPubKey, m, all);
    kept := Survivors(s, all, ackCount);
    RetiredHeadSurvivors(s, all, ackCount);
    JoinersSingle(all, s, ackCount, newRec);
    UpdateValidatorsMatchesReference(vs, all, ackCount);
    PowerSumConcat(kept, [newRec]);
    assert PowerSum([newRec]) == newRec.power;
    LastLookup(UpdateValidators(vs, all, ackCount), kept, newRec, s[0].signer);
  }

  /** What the listing of the rekeyed store says about each signer: the old signer's record is
      retired at power 0, every other member's record is unchanged, and the only current
      record of a non-member is the rekeyed one. */
  lemma RekeyLookups(records: map<Address, Validator>, s: seq<Validator>, ackCount: nat, newSigner: Address,
                     newPubKey: PubKey, m: map<Address, Validator>, all: seq<Validator>)
    requires |s| > 0 && UniqueSigners(s)
    requires forall a | a in records :: HasSigner(s, a)
    requires forall j | 0 <= j < |s| ::
               && s[j].signer in records
               && records[s[j].signer].power == s[j].power
               && IsCurrentValidator(records[s[j].signer], ackCount)
    requires newSigner !in records
    requires var prev := records[s[0].signer];
             m == records[s[0].signer := prev.(power := 0)]
                                      [newSigner := prev.(signer := newSigner, pubKey := newPubKey)]
    requires Lists(all, m)
    ensures Find(all, s[0].signer).Some? && Find(all, s[0].signer).value.power == 0
    ensures forall j | 1 <= j < |s| ::
              && Find(all, s[j].signer).Some?
              && Find(all, s[j].signer).value.power == s[j].power
              && IsCurrentValidator(Find(all, s[j].signer).value, ackCount)
    ensures UniqueSigners(all)
    ensures var newRec := records[s[0].signer].(signer := newSigner, pubKey := newPubKey);
            && newRec in all && IsCurrentValidator(newRec, ackCount) && !HasSigner(s, newSigner)
            && newRec.power == s[0].power
            && (forall k | 0 <= k < |all| ::
                  IsCurrentValidator(all[k], ackCount) && !HasSigner(s, all[k].signer) ==> all[k] == newRec)
  {
    var prev := records[s[0].signer];
    var newRec := prev.(signer := newSigner, pubKey := newPubKey);
    RekeyedMap(records, s[0].signer, newSigner, prev.(power := 0), newRec, m);
    RekeyMembersFound(records, s, ackCount, newSigner, m, all);
    assert !HasSigner(s, newSigner) by {
      forall j | 0 <= j < |s| ensures s[j].signer != newSigner {
        assert s[j].signer in records;
      }
    }
    RekeyNewcomer(records, s, ackCount, newSigner, newRec, m, all);
  }

  /** Lookups in a map written at two fresh positions. */
  lemma RekeyedMap(records: map<Address, Validator>, o: Address, n: Address, retired: Validator, newRec: Validator,
                   m: map<Address, Validator>)
    requires o in records && n !in records
    requires m == records[o := retired][n := newRec]
    ensures m.Keys == records.Keys + {n}
    ensures m[o] == retired && m[n] == newRec
    ensures forall a | a in records && a != o :: m[a] == records[a]
  {
  }

  lemma RekeyMembersFound(records: map<Address, Validator>, s: seq<Validator>, ackCount: nat, newSigner: Address,
                          m: map<Address, Validator>, all: seq<Validator>)
    requires |s| > 0 && UniqueSigners(s) && newSigner !in records
    requires forall j | 0 <= j < |s| ::
               && s[j].signer in records
               && records[s[j].signer].power == s[j].power
               && IsCurrentValidator(records[s[j].signer], ackCount)
    requires m.Keys == records.Keys + {newSigner}
    requires m[s[0].signer].power == 0
    requires forall a | a in records && a != s[0].signer :: m[a] == records[a]
    requires forall a | a in m :: Find(all, a) == Some(m[a])
    ensures Find(all, s[0].signer).Some? && Find(all, s[0].signer).value.power == 0
    ensures forall j | 1 <= j < |s| ::
              && Find(all, s[j].signer).Some?
              && Find(all, s[j].signer).value.power == s[j].power
              && IsCurrentValidator(Find(all, s[j].signer).value, ackCount)
  {
    forall j | 1 <= j < |s|
      ensures && Find(all, s[j].signer).Some?
              && Find(all, s[j].signer).value.power == s[j].power
              && IsCurrentValidator(Find(all, s[j].signer).value, ackCount)
    {
      assert s[j].signer != s[0].signer;
      assert Find(all, s[j].signer) == Some(records[s[j].signer]);
    }
  }

  lemma RekeyNewcomer(records: map<Address, Validator>, s: seq<Validator>, ackCount: nat, newSigner: Address,
                      newRec: Validator, m: map<Address, Validator>, all: seq<Validator>)
    requires forall a | a in records :: HasSigner(s, a)
    requires m.Keys == records.Keys + {newSigner} && m[newSigner] == newRec
    requires Lists(all, m)
    ensures newRec in all
    ensures forall k | 0 <= k < |all| ::
              IsCurrentValidator(all[k], ackCount) && !HasSigner(s, all[k].signer) ==> all[k] == newRec
  {
    assert Find(all, newSigner).Some?;
    var k :| 0 <= k < |all| && all[k].signer == newSigner;
    assert all[k] == newRec;
    forall k | 0 <= k < |all| && IsCurrentValidator(all[k], ackCount) && !HasSigner(s, all[k].signer)
      ensures all[k] == newRec
    {
      assert all[k].signer in m;
    }
  }

  /** Members whose head has been retired at power 0 and whose others keep current records of
      the same power: everyone but the head survives, with the same total power less the
      head's. */
  lemma RetiredHeadSurvivors(s: seq<Validator>, all: seq<Validator>, ackCount: nat)
    requires |s| > 0 && UniqueSigners(s)
    requires Find(all, s[0].signer).Some? && Find(all, s[0].signer).value.power == 0
    requires forall j | 1 <= j < |s| ::
               && Find(all, s[j].signer).Some?
               && Find(all, s[j].signer).value.power == s[j].power
               && IsCurrentValidator(Find(all, s[j].signer).value, ackCount)
    ensures |Survivors(s, all, ackCount)| + 1 == |s|
    ensures PowerSum(Survivors(s, all, ackCount)) + s[0].power == PowerSum(s)
    ensures !HasSigner(Survivors(s, all, ackCount), s[0].signer)
    ensures forall a | HasSigner(Survivors(s, all, ackCount), a) :: HasSigner(s, a)
  {
    var t := s[1..];
    assert Survivors(s, all, ackCount) == Survivors(t, all, ackCount);
    forall j | 0 <= j < |t|
      ensures && Find(all, t[j].signer).Some?
              && Find(all, t[j].signer).value.power == t[j].power
              && IsCurrentValidator(Find(all, t[j].signer).value, ackCount)
    {
      assert t[j] == s[j + 1];
    }
    SurvivorsKeepPower(t, all, ackCount);
    forall a | HasSigner(Survivors(t, all, ackCount), a) ensures HasSigner(s, a) && a != s[0].signer {
      SurvivorsMembership(t, all, ackCount, a);
      var j :| 0 <= j < |t| && t[j].signer == a;
      assert t[j] == s[j + 1];
    }
  }
}
