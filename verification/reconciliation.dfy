/** `helper.UpdateValidators`: reconcile the active validator set with every stored record at
    the epoch cursor `ackCount`, one record at a time in the order given. */
module Reconciliation {
  import opened Outcomes
  import opened Validators
  import opened ValidatorSets

  /** One record against the set: a member that is no longer current is removed, a current
      validator that is not a member is appended, a member that is still current is replaced
      in place by the record, and anything else leaves the set alone. */
  function Reconcile(vs: ValidSet, v: Validator, ackCount: nat): (r: ValidSet)
    ensures var s, i := vs.validators, IndexOf(vs.validators, v.signer);
            if i >= 0 then r.validators == s[..i] + (if IsCurrentValidator(v, ackCount) then [v] else []) + s[i + 1..]
            else r.validators == s + (if IsCurrentValidator(v, ackCount) then [v] else [])
  {
    var s := vs.validators;
    var i := IndexOf(s, v.signer);
    var current := IsCurrentValidator(v, ackCount);
    if i >= 0 then
      if current then ReplaceAt(vs, i, v)
      else
        assert s[..i] + [] == s[..i];
        RemoveAt(vs, i)
    else if current then
      Append(vs, v)
    else
      assert s + [] == s;
      vs
  }

  /** Every member after one step was a member before, or is the record itself. */
  lemma ReconcileSigners(vs: ValidSet, v: Validator, ackCount: nat, a: Address)
    requires HasSigner(Reconcile(vs, v, ackCount).validators, a)
    ensures HasSigner(vs.validators, a) || a == v.signer
  {
    var s := vs.validators;
    var i := IndexOf(s, v.signer);
    if i >= 0 {
      if IsCurrentValidator(v, ackCount) {
        assert ReplaceAt(vs, i, v) == Reconcile(vs, v, ackCount);
      } else {
        assert RemoveAt(vs, i) == Reconcile(vs, v, ackCount);
      }
    } else if IsCurrentValidator(v, ackCount) {
      assert Append(vs, v) == Reconcile(vs, v, ackCount);
    }
  }

  /** The set after every record in `all` has been reconciled against it, in order. Every
      resulting member's signer was already a member or is one of the records. */
  function UpdateValidators(vs: ValidSet, all: seq<Validator>, ackCount: nat): (r: ValidSet)
    ensures forall a :: HasSigner(r.validators, a) ==> HasSigner(vs.validators, a) || HasSigner(all, a)
    ensures |r.validators| <= |vs.validators| + |all|
    decreases |all|
  {
    if all == [] then vs
    else
      var step := Reconcile(vs, all[0], ackCount);
      var r := UpdateValidators(step, all[1..], ackCount);
      assert forall a :: HasSigner(r.validators, a) ==> HasSigner(vs.validators, a) || HasSigner(all, a) by {
        assert all == [all[0]] + all[1..];
        forall a | HasSigner(r.validators, a) ensures HasSigner(vs.validators, a) || HasSigner(all, a) {
          HasSignerConcat([all[0]], all[1..], a);
          if HasSigner(step.validators, a) {
            ReconcileSigners(vs, all[0], ackCount, a);
            if a == all[0].signer {
              assert [all[0]][0].signer == a;
            }
          }
        }
      }
      assert |Reconcile(vs, all[0], ackCount).validators| <= |vs.validators| + 1;
      r
  }

  // ---------------------------------------------------------------------------
  // A reference definition of the result, order included.

  /** The members that stay, in their original order: a member without a record is kept as
      it is, a member whose record is current is kept as that record, and a member whose record
      is not current is dropped. */
  function Survivors(members: seq<Validator>, all: seq<Validator>, ackCount: nat): seq<Validator>
    decreases |members|
  {
    if members == [] then []
    else
      var rest := Survivors(members[1..], all, ackCount);
      match Find(all, members[0].signer)
      case None => [members[0]] + rest
      case Some(v) => if IsCurrentValidator(v, ackCount) then [v] + rest else rest
  }

  /** The current records whose signer is not a member, in the order of `all`. */
  function Joiners(all: seq<Validator>, members: seq<Validator>, ackCount: nat): seq<Validator>
    decreases |all|
  {
    if all == [] then []
    else
      var rest := Joiners(all[1..], members, ackCount);
      if IsCurrentValidator(all[0], ackCount) && !HasSigner(members, all[0].signer) then [all[0]] + rest else rest
  }

  function Reference(vs: ValidSet, all: seq<Validator>, ackCount: nat): seq<Validator> {
    Survivors(vs.validators, all, ackCount) + Joiners(all, vs.validators, ackCount)
  }

  lemma {:induction false} SurvivorsConcat(a: seq<Validator>, b: seq<Validator>, all: seq<Validator>, ackCount: nat)
    ensures Survivors(a + b, all, ackCount) == Survivors(a, all, ackCount) + Survivors(b, all, ackCount)
    decreases |a|
  {
    if a == [] {
      assert a + b == b;
    } else {
      assert (a + b)[0] == a[0];
      assert (a + b)[1..] == a[1..] + b;
      SurvivorsConcat(a[1..], b, all, ackCount);
    }
  }

  /** Survivors depend only on what the lookups of the members' signers return. */
  lemma {:induction false} SurvivorsAgree(members: seq<Validator>, all1: seq<Validator>, all2: seq<Validator>, ackCount: nat)
    requires forall j | 0 <= j < |members| :: Find(all1, members[j].signer) == Find(all2, members[j].signer)
    ensures Survivors(members, all1, ackCount) == Survivors(members, all2, ackCount)
    decreases |members|
  {
    if members != [] {
      assert Find(all1, members[0].signer) == Find(all2, members[0].signer);
      forall j | 0 <= j < |members[1..]|
        ensures Find(all1, members[1..][j].signer) == Find(all2, members[1..][j].signer)
      {
        assert members[1..][j] == members[j + 1];
      }
      SurvivorsAgree(members[1..], all1, all2, ackCount);
    }
  }

  /** Joiners depend only on which of the records' signers are members. */
  lemma {:induction false} JoinersAgree(all: seq<Validator>, m1: seq<Validator>, m2: seq<Validator>, ackCount: nat)
    requires forall k | 0 <= k < |all| :: HasSigner(m1, all[k].signer) == HasSigner(m2, all[k].signer)
    ensures Joiners(all, m1, ackCount) == Joiners(all, m2, ackCount)
    decreases |all|
  {
    if all != [] {
      assert HasSigner(m1, all[0].signer) == HasSigner(m2, all[0].signer);
      forall k | 0 <= k < |all[1..]|
        ensures HasSigner(m1, all[1..][k].signer) == HasSigner(m2, all[1..][k].signer)
      {
        assert all[1..][k] == all[k + 1];
      }
      JoinersAgree(all[1..], m1, m2, ackCount);
    }
  }

  lemma SurvivorsSingle(x: Validator, all: seq<Validator>, ackCount: nat)
    ensures Survivors([x], all, ackCount) ==
              match Find(all, x.signer)
              case None => [x]
              case Some(v) => if IsCurrentValidator(v, ackCount) then [v] else []
  {
    assert [x][1..] == [];
  }

  /** Lookups in `[v] + rest` of any signer other than `v`'s agree with lookups in `rest`. */
  lemma FindPastHead(v: Validator, rest: seq<Validator>, members: seq<Validator>)
    requires forall j | 0 <= j < |members| :: members[j].signer != v.signer
    ensures forall j | 0 <= j < |members| :: Find([v] + rest, members[j].signer) == Find(rest, members[j].signer)
  {
    assert ([v] + rest)[1..] == rest;
  }

  lemma HasSignerSingle(x: Validator, a: Address)
    ensures HasSigner([x], a) <==> x.signer == a
  {
    if x.signer == a {
      assert [x][0].signer == a;
    }
  }

  /** The members around position `i` do not carry the signer found at `i`. */
  lemma OthersDiffer(s: seq<Validator>, i: nat, pre: seq<Validator>, post: seq<Validator>)
    requires UniqueSigners(s) && i < |s|
    requires pre == s[..i] && post == s[i + 1..]
    ensures forall j | 0 <= j < |pre| :: pre[j].signer != s[i].signer
    ensures forall j | 0 <= j < |post| :: post[j].signer != s[i].signer
    ensures s == pre + [s[i]] + post
  {
    forall j | 0 <= j < |pre| ensures pre[j].signer != s[i].signer {
      assert pre[j] == s[j];
    }
    forall j | 0 <= j < |post| ensures post[j].signer != s[i].signer {
      assert post[j] == s[i + 1 + j];
    }
  }

  /** Survivors of `pre + [x] + post` against `[v] + rest`, where `x` is the member with `v`'s
      signer: the record `v` decides `x`, and `rest` decides everything else. */
  lemma SurvivorsAtMember(pre: seq<Validator>, x: Validator, post: seq<Validator>, v: Validator,
                          rest: seq<Validator>, ackCount: nat)
    requires x.signer == v.signer
    requires forall j | 0 <= j < |pre| :: pre[j].signer != v.signer
    requires forall j | 0 <= j < |post| :: post[j].signer != v.signer
    ensures Survivors(pre + [x] + post, [v] + rest, ackCount) ==
              Survivors(pre, rest, ackCount)
              + (if IsCurrentValidator(v, ackCount) then [v] else [])
              + Survivors(post, rest, ackCount)
  {
    var all := [v] + rest;
    assert all[0] == v && all[1..] == rest;
    FindPastHead(v, rest, pre);
    FindPastHead(v, rest, post);
    SurvivorsAgree(pre, all, rest, ackCount);
    SurvivorsAgree(post, all, rest, ackCount);
    SurvivorsConcat(pre + [x], post, all, ackCount);
    SurvivorsConcat(pre, [x], all, ackCount);
    SurvivorsSingle(x, all, ackCount);
  }

  /** Survivors of `pre + [v] + post` against `rest`, which has no record for `v`'s signer. */
  lemma SurvivorsWithNew(pre: seq<Validator>, v: Validator, post: seq<Validator>,
                         rest: seq<Validator>, ackCount: nat)
    requires !HasSigner(rest, v.signer)
    ensures Survivors(pre + [v] + post, rest, ackCount) ==
              Survivors(pre, rest, ackCount) + [v] + Survivors(post, rest, ackCount)
  {
    SurvivorsConcat(pre + [v], post, rest, ackCount);
    SurvivorsConcat(pre, [v], rest, ackCount);
    SurvivorsSingle(v, rest, ackCount);
  }

  /** The joiners of `[v] + rest`: `v` joins when it is current and not a member. */
  lemma JoinersHead(v: Validator, rest: seq<Validator>, s: seq<Validator>, ackCount: nat)
    ensures Joiners([v] + rest, s, ackCount) ==
              if IsCurrentValidator(v, ackCount) && !HasSigner(s, v.signer) then [v] + Joiners(rest, s, ackCount)
              else Joiners(rest, s, ackCount)
  {
    assert ([v] + rest)[0] == v && ([v] + rest)[1..] == rest;
  }

  /** Two member lists that agree on every signer but `v`'s have the same joiners in `rest`. */
  lemma JoinersIgnore(rest: seq<Validator>, s1: seq<Validator>, s: seq<Validator>, v: Validator, ackCount: nat)
    requires !HasSigner(rest, v.signer)
    requires forall a | a != v.signer :: HasSigner(s1, a) == HasSigner(s, a)
    ensures Joiners(rest, s1, ackCount) == Joiners(rest, s, ackCount)
  {
    forall k | 0 <= k < |rest| ensures HasSigner(s1, rest[k].signer) == HasSigner(s, rest[k].signer) {
      assert rest[k].signer != v.signer by { assert HasSigner(rest, rest[k].signer); }
    }
    JoinersAgree(rest, s1, s, ackCount);
  }

  /** Reconciling `v` changes membership of no signer but `v`'s. */
  lemma SignersAfterStep(vs: ValidSet, v: Validator, ackCount: nat, a: Address)
    requires a != v.signer
    ensures HasSigner(Reconcile(vs, v, ackCount).validators, a) == HasSigner(vs.validators, a)
  {
    var s := vs.validators;
    var s1 := Reconcile(vs, v, ackCount).validators;
    var i := IndexOf(s, v.signer);
    HasSignerSingle(v, a);
    if i >= 0 {
      var pre, post := s[..i], s[i + 1..];
      assert s == pre + [s[i]] + post;
      HasSignerConcat(pre + [s[i]], post, a);
      HasSignerConcat(pre, [s[i]], a);
      HasSignerSingle(s[i], a);
      if IsCurrentValidator(v, ackCount) {
        assert s1 == pre + [v] + post;
        HasSignerConcat(pre + [v], post, a);
        HasSignerConcat(pre, [v], a);
      } else {
        assert s1 == pre + post;
        HasSignerConcat(pre, post, a);
      }
    } else if IsCurrentValidator(v, ackCount) {
      assert s1 == s + [v];
      HasSignerConcat(s, [v], a);
    }
  }

  /** Reconciling a record whose signer is a member. */
  lemma StepAtMember(vs: ValidSet, v: Validator, rest: seq<Validator>, ackCount: nat)
    requires !HasSigner(rest, v.signer)
    requires HasSigner(vs.validators, v.signer)
    ensures Reference(Reconcile(vs, v, ackCount), rest, ackCount) == Reference(vs, [v] + rest, ackCount)
  {
    var s := vs.validators;
    var s1 := Reconcile(vs, v, ackCount).validators;
    var i := IndexOf(s, v.signer);
    var pre, post := s[..i], s[i + 1..];
    var mid := if IsCurrentValidator(v, ackCount) then [v] else [];
    assert s1 == pre + mid + post;
    OthersDiffer(s, i, pre, post);
    SurvivorsAtMember(pre, s[i], post, v, rest, ackCount);
    var survivors := Survivors(pre, rest, ackCount) + mid + Survivors(post, rest, ackCount);
    assert Survivors(s, [v] + rest, ackCount) == survivors;
    JoinersHead(v, rest, s, ackCount);
    assert Joiners([v] + rest, s, ackCount) == Joiners(rest, s, ackCount);
    forall a | a != v.signer ensures HasSigner(s1, a) == HasSigner(s, a) {
      SignersAfterStep(vs, v, ackCount, a);
    }
    JoinersIgnore(rest, s1, s, v, ackCount);
    assert Joiners(rest, s1, ackCount) == Joiners(rest, s, ackCount);
    SurvivorsMiddle(pre, mid, post, rest, ackCount);
    assert Survivors(s1, rest, ackCount) == survivors;
  }

  /** Survivors of a three-part list, where the middle part is empty or a record that `rest`
      has no entry for. */
  lemma SurvivorsMiddle(pre: seq<Validator>, mid: seq<Validator>, post: seq<Validator>,
                        rest: seq<Validator>, ackCount: nat)
    requires mid == [] || (|mid| == 1 && !HasSigner(rest, mid[0].signer))
    ensures Survivors(pre + mid + post, rest, ackCount) ==
              Survivors(pre, rest, ackCount) + mid + Survivors(post, rest, ackCount)
  {
    if mid == [] {
      assert pre + mid + post == pre + post;
      SurvivorsConcat(pre, post, rest, ackCount);
    } else {
      assert mid == [mid[0]];
      SurvivorsWithNew(pre, mid[0], post, rest, ackCount);
    }
  }

  /** Reconciling a record whose signer is not a member. */
  lemma StepAtNonMember(vs: ValidSet, v: Validator, rest: seq<Validator>, ackCount: nat)
    requires !HasSigner(rest, v.signer)
    requires !HasSigner(vs.validators, v.signer)
    ensures Reference(Reconcile(vs, v, ackCount), rest, ackCount) == Reference(vs, [v] + rest, ackCount)
  {
    var s := vs.validators;
    var s1 := Reconcile(vs, v, ackCount).validators;
    assert forall j | 0 <= j < |s| :: s[j].signer != v.signer;
    FindPastHead(v, rest, s);
    SurvivorsAgree(s, [v] + rest, rest, ackCount);
    JoinersHead(v, rest, s, ackCount);
    if IsCurrentValidator(v, ackCount) {
      assert s1 == s + [v];
      assert s + [v] == s + [v] + [];
      SurvivorsWithNew(s, v, [], rest, ackCount);
      forall a | a != v.signer ensures HasSigner(s1, a) == HasSigner(s, a) {
        SignersAfterStep(vs, v, ackCount, a);
      }
      JoinersIgnore(rest, s1, s, v, ackCount);
    } else {
      assert s1 == s;
    }
  }

  /** Reconciling the head record moves the reference result from `[v] + rest` to `rest`. */
  lemma StepPreservesReference(vs: ValidSet, v: Validator, rest: seq<Validator>, ackCount: nat)
    requires !HasSigner(rest, v.signer)
    ensures Reference(Reconcile(vs, v, ackCount), rest, ackCount) == Reference(vs, [v] + rest, ackCount)
  {
    if HasSigner(vs.validators, v.signer) {
      StepAtMember(vs, v, rest, ackCount);
    } else {
      StepAtNonMember(vs, v, rest, ackCount);
    }
  }

  lemma UniqueTail(all: seq<Validator>)
    requires UniqueSigners(all) && all != []
    ensures UniqueSigners(all[1..])
    ensures !HasSigner(all[1..], all[0].signer)
    ensures all == [all[0]] + all[1..]
  {
    forall j | 0 <= j < |all[1..]| ensures all[1..][j].signer != all[0].signer {
      assert all[1..][j] == all[j + 1];
    }
  }

  /** When the records have unique signers, the reconciled set is the surviving members in
      their original order followed by the joining records in the order of `all`. */
  lemma {:induction false} UpdateValidatorsMatchesReference(vs: ValidSet, all: seq<Validator>, ackCount: nat)
    requires UniqueSigners(all)
    ensures UpdateValidators(vs, all, ackCount).validators == Reference(vs, all, ackCount)
    decreases |all|
  {
    if all == [] {
      SurvivorsOfSettled(vs.validators, all, ackCount);
    } else {
      UniqueTail(all);
      var vs1 := Reconcile(vs, all[0], ackCount);
      UpdateValidatorsMatchesReference(vs1, all[1..], ackCount);
      StepPreservesReference(vs, all[0], all[1..], ackCount);
    }
  }

  // ---------------------------------------------------------------------------
  // Membership, contents and idempotence.

  /** A member agrees with the records: it has no record, or it is its own record and current. */
  predicate Settled(m: Validator, all: seq<Validator>, ackCount: nat) {
    Find(all, m.signer) == None || (Find(all, m.signer) == Some(m) && IsCurrentValidator(m, ackCount))
  }

  lemma {:induction false} SurvivorsOfSettled(members: seq<Validator>, all: seq<Validator>, ackCount: nat)
    requires forall j | 0 <= j < |members| :: Settled(members[j], all, ackCount)
    ensures Survivors(members, all, ackCount) == members
    decreases |members|
  {
    if members != [] {
      assert Settled(members[0], all, ackCount);
      forall j | 0 <= j < |members[1..]| ensures Settled(members[1..][j], all, ackCount) {
        assert members[1..][j] == members[j + 1];
      }
      SurvivorsOfSettled(members[1..], all, ackCount);
      assert members == [members[0]] + members[1..];
    }
  }

  /** A survivor is settled, and one without a record was a member. */
  lemma {:induction false} SurvivorsSettle(members: seq<Validator>, all: seq<Validator>, ackCount: nat)
    ensures forall x | x in Survivors(members, all, ackCount) ::
              Settled(x, all, ackCount) && (Find(all, x.signer) == None ==> x in members)
    decreases |members|
  {
    if members != [] {
      SurvivorsSettle(members[1..], all, ackCount);
      match Find(all, members[0].signer)
      case None =>
      case Some(v) =>
    }
  }

  /** A joiner is one of the records, current, and settled. */
  lemma {:induction false} JoinersSettle(all: seq<Validator>, members: seq<Validator>, ackCount: nat)
    requires UniqueSigners(all)
    ensures forall x | x in Joiners(all, members, ackCount) ::
              x in all && Find(all, x.signer) == Some(x) && IsCurrentValidator(x, ackCount)
  {
    JoinersFromRecords(all, members, ackCount);
    forall x | x in Joiners(all, members, ackCount)
      ensures Find(all, x.signer) == Some(x)
    {
      FindMember(all, x);
    }
  }

  lemma {:induction false} JoinersFromRecords(all: seq<Validator>, members: seq<Validator>, ackCount: nat)
    ensures forall x | x in Joiners(all, members, ackCount) ::
              x in all && IsCurrentValidator(x, ackCount) && !HasSigner(members, x.signer)
    decreases |all|
  {
    if all != [] {
      JoinersFromRecords(all[1..], members, ackCount);
    }
  }

  /** A signer survives exactly when it was a member and its record, if any, is current. */
  lemma {:induction false} SurvivorsMembership(members: seq<Validator>, all: seq<Validator>, ackCount: nat, a: Address)
    ensures HasSigner(Survivors(members, all, ackCount), a) <==>
              HasSigner(members, a) && (Find(all, a).None? || IsCurrentValidator(Find(all, a).value, ackCount))
    decreases |members|
  {
    if members != [] {
      var m := members[0];
      SurvivorsMembership(members[1..], all, ackCount, a);
      HasSignerConcat([m], members[1..], a);
      assert members == [m] + members[1..];
      var rest := Survivors(members[1..], all, ackCount);
      HasSignerSingle(m, a);
      match Find(all, m.signer)
      case None =>
        HasSignerConcat([m], rest, a);
      case Some(v) =>
        HasSignerConcat([v], rest, a);
        HasSignerSingle(v, a);
    } else {
      assert !HasSigner(members, a);
    }
  }

  /** A signer joins exactly when it is not a member and its record is current. */
  lemma {:induction false} JoinersMembership(all: seq<Validator>, members: seq<Validator>, ackCount: nat, a: Address)
    requires UniqueSigners(all)
    ensures HasSigner(Joiners(all, members, ackCount), a) <==>
              !HasSigner(members, a) && Find(all, a).Some? && IsCurrentValidator(Find(all, a).value, ackCount)
    decreases |all|
  {
    if all != [] {
      var x := all[0];
      UniqueTail(all);
      JoinersMembership(all[1..], members, ackCount, a);
      var rest := Joiners(all[1..], members, ackCount);
      HasSignerConcat([x], rest, a);
      if a == x.signer {
        assert Find(all, a) == Some(x);
      } else {
        assert Find(all, a) == Find(all[1..], a);
      }
    } else {
      assert !HasSigner(Joiners(all, members, ackCount), a);
    }
  }

  /** Membership after reconciliation: a signer with a record is a member exactly when that
      record is current; a signer without one is a member exactly when it was before. */
  lemma UpdateValidatorsMembership(vs: ValidSet, all: seq<Validator>, ackCount: nat, a: Address)
    requires UniqueSigners(all)
    ensures HasAddress(UpdateValidators(vs, all, ackCount), a) <==>
              if Find(all, a).Some? then IsCurrentValidator(Find(all, a).value, ackCount)
              else HasAddress(vs, a)
  {
    var s := vs.validators;
    UpdateValidatorsMatchesReference(vs, all, ackCount);
    HasSignerConcat(Survivors(s, all, ackCount), Joiners(all, s, ackCount), a);
    SurvivorsMembership(s, all, ackCount, a);
    JoinersMembership(all, s, ackCount, a);
  }

  /** Contents after reconciliation: a member with a record is that record, and one without a
      record is unchanged from before. */
  lemma UpdateValidatorsContents(vs: ValidSet, all: seq<Validator>, ackCount: nat)
    requires UniqueSigners(all)
    ensures forall x | x in UpdateValidators(vs, all, ackCount).validators ::
              if Find(all, x.signer).Some? then Find(all, x.signer) == Some(x) else x in vs.validators
  {
    var s := vs.validators;
    UpdateValidatorsMatchesReference(vs, all, ackCount);
    SurvivorsSettle(s, all, ackCount);
    JoinersSettle(all, s, ackCount);
  }

  lemma {:induction false} JoinersNone(all: seq<Validator>, members: seq<Validator>, ackCount: nat)
    requires forall k | 0 <= k < |all| :: IsCurrentValidator(all[k], ackCount) ==> HasSigner(members, all[k].signer)
    ensures Joiners(all, members, ackCount) == []
    decreases |all|
  {
    if all != [] {
      forall k | 0 <= k < |all[1..]|
        ensures IsCurrentValidator(all[1..][k], ackCount) ==> HasSigner(members, all[1..][k].signer)
      {
        assert all[1..][k] == all[k + 1];
      }
      JoinersNone(all[1..], members, ackCount);
    }
  }

  /** Reconciling a second time with the same records changes nothing. */
  lemma UpdateValidatorsIdempotent(vs: ValidSet, all: seq<Validator>, ackCount: nat)
    requires UniqueSigners(all)
    ensures UpdateValidators(UpdateValidators(vs, all, ackCount), all, ackCount) == UpdateValidators(vs, all, ackCount)
  {
    var s := vs.validators;
    var r := UpdateValidators(vs, all, ackCount);
    var rr := UpdateValidators(r, all, ackCount);
    UpdateValidatorsMatchesReference(vs, all, ackCount);
    UpdateValidatorsMatchesReference(r, all, ackCount);
    SurvivorsSettle(s, all, ackCount);
    JoinersSettle(all, s, ackCount);
    assert forall j | 0 <= j < |r.validators| :: Settled(r.validators[j], all, ackCount) by {
      forall j | 0 <= j < |r.validators| ensures Settled(r.validators[j], all, ackCount) {
        assert r.validators[j] in Survivors(s, all, ackCount) + Joiners(all, s, ackCount);
      }
    }
    SurvivorsOfSettled(r.validators, all, ackCount);
    forall k | 0 <= k < |all| && IsCurrentValidator(all[k], ackCount)
      ensures HasSigner(r.validators, all[k].signer)
    {
      FindUnique(all, k);
      UpdateValidatorsMembership(vs, all, ackCount, all[k].signer);
    }
    JoinersNone(all, r.validators, ackCount);
    assert rr.validators == r.validators;
  }
}
