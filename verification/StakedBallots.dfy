/** Ballots weighted by an election: validators vote with all stake behind them, and a nominator who votes directly takes
    the own part back. */
module StakedBallots {
  import opened Wrappers
  import opened Bytes
  import opened Sums
  import opened Ballots

  // ----- the roll -----

  datatype Elected = Elected(pubkey: Hash, totalStake: nat, selfStake: nat, backers: seq<(Hash, nat)>)
  datatype ElectionResult = ElectionResult(elected: seq<Elected>, totalStake: nat)

  datatype Backing = Backing(stake: nat, validator: Hash)
  datatype Roll = Roll(validators: map<Hash, nat>, nominators: map<Hash, Backing>, totalPower: nat)

  /** A later entry for the same nominator replaces an earlier one. */
  function WithBackers(nominators: map<Hash, Backing>, backers: seq<(Hash, nat)>, n: nat, validator: Hash): map<Hash, Backing>
    requires n <= |backers|
  {
    if n == 0 then nominators
    else WithBackers(nominators, backers, n - 1, validator)[backers[n - 1].0 := Backing(backers[n - 1].1, validator)]
  }

  function Validators(elected: seq<Elected>, n: nat): map<Hash, nat>
    requires n <= |elected|
  {
    if n == 0 then map[] else Validators(elected, n - 1)[elected[n - 1].pubkey := elected[n - 1].totalStake]
  }

  function Nominators(elected: seq<Elected>, n: nat): map<Hash, Backing>
    requires n <= |elected|
  {
    if n == 0 then map[]
    else WithBackers(Nominators(elected, n - 1), elected[n - 1].backers, |elected[n - 1].backers|, elected[n - 1].pubkey)
  }

  function RollOf(result: ElectionResult): Roll {
    Roll(Validators(result.elected, |result.elected|), Nominators(result.elected, |result.elected|), result.totalStake)
  }

  function PowerOf(roll: Roll, pubkey: Hash): nat {
    if pubkey in roll.validators then roll.validators[pubkey]
    else if pubkey in roll.nominators then roll.nominators[pubkey].stake
    else 0
  }

  // ----- who is on the roll -----

  /** The latest of the first n backers is entry j. */
  predicate LastBacker(backers: seq<(Hash, nat)>, n: nat, k: Hash, j: nat) {
    j < n <= |backers| && backers[j].0 == k && forall i :: j < i < n ==> backers[i].0 != k
  }

  predicate Backs(backers: seq<(Hash, nat)>, k: Hash) {
    exists j :: 0 <= j < |backers| && backers[j].0 == k
  }

  lemma {:induction false} BackerEntered(nominators: map<Hash, Backing>, backers: seq<(Hash, nat)>, n: nat, validator: Hash, k: Hash, j: nat)
    requires LastBacker(backers, n, k, j)
    ensures var after := WithBackers(nominators, backers, n, validator); k in after && after[k] == Backing(backers[j].1, validator)
  {
    if j != n - 1 {
      BackerEntered(nominators, backers, n - 1, validator, k, j);
      assert backers[n - 1].0 != k;
    }
  }

  lemma {:induction false} OthersKept(nominators: map<Hash, Backing>, backers: seq<(Hash, nat)>, n: nat, validator: Hash, k: Hash)
    requires n <= |backers| && forall j :: 0 <= j < n ==> backers[j].0 != k
    ensures var after := WithBackers(nominators, backers, n, validator);
      (k in after <==> k in nominators) && (k in nominators ==> after[k] == nominators[k])
  {
    if n != 0 {
      OthersKept(nominators, backers, n - 1, validator, k);
      assert backers[n - 1].0 != k;
    }
  }

  lemma {:induction false} LastBackerExists(backers: seq<(Hash, nat)>, n: nat, k: Hash) returns (j: nat)
    requires n <= |backers| && exists i :: 0 <= i < n && backers[i].0 == k
    ensures LastBacker(backers, n, k, j)
  {
    if backers[n - 1].0 == k {
      j := n - 1;
    } else {
      j := LastBackerExists(backers, n - 1, k);
    }
  }

  /** The last of the first n validators that lists k is number i, as its entry j. */
  predicate LastListing(elected: seq<Elected>, n: nat, k: Hash, i: nat, j: nat) {
    && i < n <= |elected| && LastBacker(elected[i].backers, |elected[i].backers|, k, j)
    && forall m :: i < m < n ==> !Backs(elected[m].backers, k)
  }

  /** The last of the first n validators with the key is number i. */
  predicate LastElected(elected: seq<Elected>, n: nat, v: Hash, i: nat) {
    i < n <= |elected| && elected[i].pubkey == v && forall m :: i < m < n ==> elected[m].pubkey != v
  }

  lemma {:induction false} NominatorsListed(elected: seq<Elected>, n: nat, k: Hash)
    requires n <= |elected|
    ensures k in Nominators(elected, n) <==> exists i :: 0 <= i < n && Backs(elected[i].backers, k)
  {
    hide WithBackers;
    if n != 0 {
      NominatorsListed(elected, n - 1, k);
      var e := elected[n - 1];
      if Backs(e.backers, k) {
        var j := LastBackerExists(e.backers, |e.backers|, k);
        BackerEntered(Nominators(elected, n - 1), e.backers, |e.backers|, e.pubkey, k, j);
      } else {
        OthersKept(Nominators(elected, n - 1), e.backers, |e.backers|, e.pubkey, k);
      }
    }
  }

  lemma {:induction false} NominatorEntry(elected: seq<Elected>, n: nat, k: Hash, i: nat, j: nat)
    requires LastListing(elected, n, k, i, j)
    ensures k in Nominators(elected, n) && Nominators(elected, n)[k] == Backing(elected[i].backers[j].1, elected[i].pubkey)
  {
    hide WithBackers;
    var e := elected[n - 1];
    if i == n - 1 {
      BackerEntered(Nominators(elected, n - 1), e.backers, |e.backers|, e.pubkey, k, j);
    } else {
      NominatorEntry(elected, n - 1, k, i, j);
      assert !Backs(e.backers, k);
      OthersKept(Nominators(elected, n - 1), e.backers, |e.backers|, e.pubkey, k);
    }
  }

  lemma {:induction false} ValidatorsListed(elected: seq<Elected>, n: nat, v: Hash)
    requires n <= |elected|
    ensures v in Validators(elected, n) <==> exists i :: 0 <= i < n && elected[i].pubkey == v
  {
    if n != 0 {
      ValidatorsListed(elected, n - 1, v);
    }
  }

  lemma {:induction false} ValidatorEntry(elected: seq<Elected>, n: nat, v: Hash, i: nat)
    requires LastElected(elected, n, v, i)
    ensures v in Validators(elected, n) && Validators(elected, n)[v] == elected[i].totalStake
  {
    if i != n - 1 {
      ValidatorEntry(elected, n - 1, v, i);
    }
  }

  /** Who has what power after `from_election`, for every result: an elected key its last total stake, any other key the stake
      of its last listing as a backer, and nobody else anything; a nominator stands behind the validator of that listing. */
  lemma RollLists(result: ElectionResult, k: Hash)
    ensures var roll, elected, n := RollOf(result), result.elected, |result.elected|;
      && roll.totalPower == result.totalStake
      && (k in roll.validators <==> exists i :: 0 <= i < n && elected[i].pubkey == k)
      && (k in roll.nominators <==> exists i :: 0 <= i < n && Backs(elected[i].backers, k))
      && (forall i: nat :: LastElected(elected, n, k, i) ==> PowerOf(roll, k) == elected[i].totalStake)
      && (forall i: nat, j: nat :: LastListing(elected, n, k, i, j) ==>
            && k in roll.nominators && roll.nominators[k] == Backing(elected[i].backers[j].1, elected[i].pubkey)
            && (k !in roll.validators ==> PowerOf(roll, k) == elected[i].backers[j].1))
      && (k !in roll.validators && k !in roll.nominators ==> PowerOf(roll, k) == 0)
  {
    hide Validators, Nominators, Backs;
    var elected, n := result.elected, |result.elected|;
    NominatorsListed(elected, n, k);
    ValidatorsListed(elected, n, k);
    forall i: nat | LastElected(elected, n, k, i) ensures PowerOf(RollOf(result), k) == elected[i].totalStake {
      ValidatorEntry(elected, n, k, i);
    }
    forall i: nat, j: nat | LastListing(elected, n, k, i, j)
      ensures k in RollOf(result).nominators && RollOf(result).nominators[k] == Backing(elected[i].backers[j].1, elected[i].pubkey)
    {
      NominatorEntry(elected, n, k, i, j);
    }
  }

  // ----- the operations on values -----

  /** The hashes: `VoteCommitment::compute` and `Nullifier::derive`. */
  datatype Hashes = Hashes(compute: Commitment, derive: (Hash, nat) -> Hash)

  datatype Staked = Staked(ballot: State, voted: map<Hash, Hash>)

  datatype Cast = Cast(voter: Hash, secret: Hash, vote: Vote, blinding: Hash, signature: seq<byte>)

  function StakedCommitted(H: Hashes, id: nat, roll: Roll, s: Staked, c: Cast): (Staked, Reply) {
    var power := PowerOf(roll, c.voter);
    if power == 0 then (s, Failure(ZeroPower))
    else
      var n := H.derive(c.secret, id);
      var next := Committed(s.ballot, SealedVote(H.compute(c.vote, c.blinding, n), n, power, c.signature, c.voter));
      (if next.1.Success? then Staked(next.0, s.voted[n := c.voter]) else s, next.1)
  }

  /** What the nominator who cast vote n delegated. */
  function StakeOf(roll: Roll, voted: map<Hash, Hash>): Hash -> nat {
    n => if n in voted && voted[n] in roll.nominators then roll.nominators[voted[n]].stake else 0
  }

  ghost function Overriders(roll: Roll, voted: map<Hash, Hash>, validator: Hash): set<Hash> {
    set n | n in voted && voted[n] in roll.nominators && roll.nominators[voted[n]].validator == validator
  }

  /** The stake behind a validator whose owners committed a vote of their own. */
  ghost function Override(roll: Roll, voted: map<Hash, Hash>, validator: Hash): nat {
    Sum(Overriders(roll, voted, validator), StakeOf(roll, voted))
  }

  function SaturatingSub(a: nat, b: nat): nat {
    if a >= b then a - b else 0
  }

  /** The weight of vote n: a validator loses what its own nominators took back. */
  ghost function Effective(roll: Roll, sealed: map<Hash, SealedVote>, voted: map<Hash, Hash>): Hash -> nat {
    n =>
      if n !in sealed then 0
      else if n in voted && voted[n] in roll.validators then SaturatingSub(sealed[n].power, Override(roll, voted, voted[n]))
      else sealed[n].power
  }

  ghost function StakedFinalized(roll: Roll, s: Staked): Staked {
    s.(ballot := s.ballot.(phase := Tallied, tally := Counted(s.ballot.revealed, Effective(roll, s.ballot.sealed, s.voted))))
  }

  // ----- the staked ballot -----

  class StakedBallot {
    const ballot: Ballot
    const validatorStakes: map<Hash, nat>
    const nominatorStakes: map<Hash, Backing>
    const totalPower: nat
    var voted: map<Hash, Hash>

    ghost function Value(): Staked
      reads this, ballot
    {
      Staked(ballot.Value(), voted)
    }

    function Registered(): Roll {
      Roll(validatorStakes, nominatorStakes, totalPower)
    }

    constructor (ballot: Ballot, roll: Roll)
      ensures this.ballot == ballot && Registered() == roll && voted == map[]
    {
      this.ballot := ballot;
      validatorStakes, nominatorStakes, totalPower := roll.validators, roll.nominators, roll.totalPower;
      voted := map[];
    }

    method Commit(H: Hashes, c: Cast) returns (r: Reply)
      modifies this`voted, ballot`sealed
      ensures (Value(), r) == StakedCommitted(H, ballot.proposalId, Registered(), old(Value()), c)
    {
      var power := PowerOf(Registered(), c.voter);
      if power == 0 {
        return Failure(ZeroPower);
      }
      var n := H.derive(c.secret, ballot.proposalId);
      r := ballot.Commit(SealedVote(H.compute(c.vote, c.blinding, n), n, power, c.signature, c.voter));
      if r.Success? {
        voted := voted[n := c.voter];
      }
    }

    method Reveal(H: Hashes, v: RevealedVote) returns (r: Reply)
      modifies ballot`revealed
      ensures Value() == old(Value()).(ballot := Revealed(H.compute, old(ballot.Value()), v).0)
      ensures r == Revealed(H.compute, old(ballot.Value()), v).1
    {
      r := ballot.Reveal(H.compute, v);
    }

    method Finalize()
      modifies ballot`phase, ballot`tally
      ensures Value() == StakedFinalized(Registered(), old(Value()))
    {
      hide Counted, Effective;
      ballot.Finalize();
      var overrides := Overrides();
      ballot.tally := Recount(overrides);
    }

    /** The tally rebuilt with the overrides. */
    method Recount(overrides: map<Hash, nat>) returns (count: Tally)
      requires IsOverrides(Registered(), voted, overrides)
      ensures count == Counted(ballot.revealed, Effective(Registered(), ballot.sealed, voted))
    {
      hide Counted, Effective, IsOverrides, Registered, Tally.Add;
      ghost var power := Effective(Registered(), ballot.sealed, voted);
      var revealed := ballot.revealed;
      count := Tally(0, 0, 0);
      var todo := revealed.Keys;
      CountedEmpty(power);
      assert revealed - todo == map[];
      while todo != {}
        invariant todo <= revealed.Keys
        invariant count == Counted(revealed - todo, power)
        decreases |todo|
      {
        var nf :| nf in todo;
        SeenStep(revealed, todo, nf);
        CountedStep(revealed - todo, nf, revealed[nf], power);
        todo := todo - {nf};
        var effective := Weigh(overrides, nf);
        AddNothing(count, revealed[nf].vote);
        if effective > 0 {
          count := count.Add(revealed[nf].vote, effective);
        }
      }
      assert revealed - {} == revealed;
    }

    /** The power one revealed vote is counted with. */
    method Weigh(overrides: map<Hash, nat>, nf: Hash) returns (effective: nat)
      requires IsOverrides(Registered(), voted, overrides)
      ensures effective == Effective(Registered(), ballot.sealed, voted)(nf)
    {
      effective := 0;
      if nf in ballot.sealed {
        effective := ballot.sealed[nf].power;
        if nf in voted && voted[nf] in validatorStakes {
          var amount := if voted[nf] in overrides then overrides[voted[nf]] else 0;
          effective := SaturatingSub(effective, amount);
        }
      }
    }

    /** The loop over everyone who committed. */
    method Overrides() returns (overrides: map<Hash, nat>)
      ensures IsOverrides(Registered(), voted, overrides)
    {
      hide IsOverrides;
      overrides := map[];
      var todo := voted.Keys;
      assert voted - todo == map[];
      OverrideEmpty(Registered());
      while todo != {}
        invariant todo <= voted.Keys
        invariant IsOverrides(Registered(), voted - todo, overrides)
        decreases |todo|
      {
        var nf :| nf in todo;
        SeenStep(voted, todo, nf);
        OverrideStep(Registered(), voted - todo, overrides, nf, voted[nf]);
        todo := todo - {nf};
        if voted[nf] in nominatorStakes {
          var b := nominatorStakes[voted[nf]];
          overrides := overrides[b.validator := (if b.validator in overrides then overrides[b.validator] else 0) + b.stake];
        }
      }
      assert voted - {} == voted;
    }
  }

  lemma AddNothing(t: Tally, vote: Vote)
    ensures t.Add(vote, 0) == t
  {
  }

  ghost predicate IsOverrides(roll: Roll, voted: map<Hash, Hash>, overrides: map<Hash, nat>) {
    forall v :: Override(roll, voted, v) == if v in overrides then overrides[v] else 0
  }

  lemma OverrideEmpty(roll: Roll)
    ensures IsOverrides(roll, map[], map[])
  {
    assert forall v :: Overriders(roll, map[], v) == {};
  }

  /** One more vote of a nominator adds its stake to what its validator loses, and to nothing else. */
  lemma OverrideAdds(roll: Roll, seen: map<Hash, Hash>, n: Hash, voter: Hash, v: Hash)
    requires n !in seen
    ensures Override(roll, seen[n := voter], v) == Override(roll, seen, v)
      + (if voter in roll.nominators && roll.nominators[voter].validator == v then roll.nominators[voter].stake else 0)
  {
    hide Sum;
    var f, g := StakeOf(roll, seen), StakeOf(roll, seen[n := voter]);
    var before, after := Overriders(roll, seen, v), Overriders(roll, seen[n := voter], v);
    SumEqual(before, f, g);
    if voter in roll.nominators && roll.nominators[voter].validator == v {
      assert after == before + {n};
      SumInsert(before, g, n);
    } else {
      assert after == before;
    }
  }

  lemma OverrideStep(roll: Roll, seen: map<Hash, Hash>, overrides: map<Hash, nat>, n: Hash, voter: Hash)
    requires n !in seen && IsOverrides(roll, seen, overrides)
    ensures voter !in roll.nominators ==> IsOverrides(roll, seen[n := voter], overrides)
    ensures voter in roll.nominators ==>
      var b := roll.nominators[voter];
      IsOverrides(roll, seen[n := voter], overrides[b.validator := (if b.validator in overrides then overrides[b.validator] else 0) + b.stake])
  {
    hide Override;
    forall v ensures Override(roll, seen[n := voter], v) == Override(roll, seen, v)
      + (if voter in roll.nominators && roll.nominators[voter].validator == v then roll.nominators[voter].stake else 0)
    {
      OverrideAdds(roll, seen, n, voter, v);
    }
  }

  /** The validator behind whom k stands, with k's stake, and nobody for any other key. */
  function TakenFrom(roll: Roll, k: Hash, v: Hash): nat {
    if k in roll.nominators && roll.nominators[k].validator == v then roll.nominators[k].stake else 0
  }

  lemma CastState(H: Hashes, id: nat, roll: Roll, s: Staked, c: Cast) returns (v: SealedVote)
    requires StakedCommitted(H, id, roll, s, c).1.Success?
    ensures var n := H.derive(c.secret, id);
      && n !in s.ballot.sealed && v.power == PowerOf(roll, c.voter) && v.nullifier == n && v.signer == c.voter && v.signature == c.signature
      && StakedCommitted(H, id, roll, s, c).0 == Staked(s.ballot.(sealed := s.ballot.sealed[n := v]), s.voted[n := c.voter])
  {
    var n := H.derive(c.secret, id);
    v := SealedVote(H.compute(c.vote, c.blinding, n), n, PowerOf(roll, c.voter), c.signature, c.voter);
  }

  /** What an accepted cast does to the weights, before anything is revealed: the validator behind whom the voter stands loses the
      voter's stake at once, no other sealed vote changes, and the new vote weighs the power of its key, for a validator less what
      was taken back. */
  lemma CastTakesBack(H: Hashes, id: nat, roll: Roll, s: Staked, c: Cast, m: Hash)
    requires StakedCommitted(H, id, roll, s, c).1.Success? && s.voted.Keys == s.ballot.sealed.Keys
    ensures var after, n := StakedCommitted(H, id, roll, s, c).0, H.derive(c.secret, id);
      var weight, weight' := Effective(roll, s.ballot.sealed, s.voted), Effective(roll, after.ballot.sealed, after.voted);
      && after.voted.Keys == after.ballot.sealed.Keys == s.voted.Keys + {n} && n !in s.voted
      && (m in s.voted && s.voted[m] in roll.validators ==> weight'(m) == SaturatingSub(weight(m), TakenFrom(roll, c.voter, s.voted[m])))
      && (m in s.voted && s.voted[m] !in roll.validators ==> weight'(m) == weight(m))
      && weight'(n) == (if c.voter !in roll.validators then PowerOf(roll, c.voter)
                        else SaturatingSub(PowerOf(roll, c.voter), Override(roll, s.voted, c.voter) + TakenFrom(roll, c.voter, c.voter)))
  {
    hide Override, PowerOf, StakedCommitted;
    var n := H.derive(c.secret, id);
    var v := CastState(H, id, roll, s, c);
    OverrideAdds(roll, s.voted, n, c.voter, c.voter);
    if m in s.voted {
      OverrideAdds(roll, s.voted, n, c.voter, s.voted[m]);
    }
  }

  /** `StakedBallot::from_election`: no result, no ballot. */
  method FromElection(proposalId: nat, commitDeadline: nat, revealDeadline: nat, result: Option<ElectionResult>)
    returns (r: Option<StakedBallot>)
    ensures r.Some? <==> result.Some?
    ensures r.Some? ==> fresh(r.value) && fresh(r.value.ballot) && r.value.ballot.proposalId == proposalId
    ensures r.Some? ==> r.value.ballot.commitDeadline == commitDeadline && r.value.ballot.revealDeadline == revealDeadline
    ensures r.Some? ==> r.value.Registered() == RollOf(result.value) && r.value.Value() == Staked(Fresh(), map[])
  {
    if result.None? {
      return None;
    }
    var elected := result.value.elected;
    var validators: map<Hash, nat>, nominators: map<Hash, Backing> := map[], map[];
    for i := 0 to |elected|
      invariant validators == Validators(elected, i) && nominators == Nominators(elected, i)
    {
      validators := validators[elected[i].pubkey := elected[i].totalStake];
      for j := 0 to |elected[i].backers|
        invariant nominators == WithBackers(Nominators(elected, i), elected[i].backers, j, elected[i].pubkey)
      {
        nominators := nominators[elected[i].backers[j].0 := Backing(elected[i].backers[j].1, elected[i].pubkey)];
      }
    }
    var ballot := new Ballot(proposalId, commitDeadline, revealDeadline);
    var staked := new StakedBallot(ballot, Roll(validators, nominators, result.value.totalStake));
    return Some(staked);
  }
}
