/** Delegated stake is never counted twice. */
module StakeConservation {
  import opened Bytes
  import opened Sums
  import opened Ballots
  import opened StakedBallots

  // ----- what an election result provides -----

  function BackerTotal(backers: seq<(Hash, nat)>, n: nat): nat
    requires n <= |backers|
  {
    if n == 0 then 0 else BackerTotal(backers, n - 1) + backers[n - 1].1
  }

  function StakeTotal(elected: seq<Elected>, n: nat): nat
    requires n <= |elected|
  {
    if n == 0 then 0 else StakeTotal(elected, n - 1) + elected[n - 1].totalStake
  }

  /** Distinct validators, backers within the stake they back, and the total that `run_election` sums up. */
  ghost predicate WellFormed(result: ElectionResult) {
    && (forall i, j :: 0 <= i < j < |result.elected| ==> result.elected[i].pubkey != result.elected[j].pubkey)
    && (forall e :: e in result.elected ==> BackerTotal(e.backers, |e.backers|) <= e.totalStake)
    && result.totalStake == StakeTotal(result.elected, |result.elected|)
  }

  function StakeAt(validators: map<Hash, nat>, v: Hash): nat {
    if v in validators then validators[v] else 0
  }

  function Stakes(validators: map<Hash, nat>): Hash -> nat {
    v => StakeAt(validators, v)
  }

  function DelegatedBy(nominators: map<Hash, Backing>, k: Hash): nat {
    if k in nominators then nominators[k].stake else 0
  }

  function Delegated(nominators: map<Hash, Backing>): Hash -> nat {
    k => DelegatedBy(nominators, k)
  }

  ghost function Backers(nominators: map<Hash, Backing>, v: Hash): set<Hash> {
    set k | k in nominators && nominators[k].validator == v
  }

  ghost function Behind(nominators: map<Hash, Backing>, v: Hash): nat {
    Sum(Backers(nominators, v), Delegated(nominators))
  }

  /** Every nominator stands behind a validator, no validator has more behind it than its stake, and the stakes add up. */
  ghost predicate Covered(validators: map<Hash, nat>, nominators: map<Hash, Backing>, total: nat) {
    && (forall k :: k in nominators ==> nominators[k].validator in validators)
    && (forall v :: v in validators ==> Behind(nominators, v) <= validators[v])
    && Sum(validators.Keys, Stakes(validators)) == total
  }

  lemma InsertBacker(nominators: map<Hash, Backing>, k: Hash, stake: nat, v: Hash, w: Hash)
    ensures Behind(nominators[k := Backing(stake, v)], w) <= Behind(nominators, w) + (if w == v then stake else 0)
  {
    hide Sum;
    var after := nominators[k := Backing(stake, v)];
    var old', new', others := Backers(nominators, w), Backers(after, w), Backers(nominators, w) - {k};
    SumEqual(others, Delegated(nominators), Delegated(after));
    SumMono(others, old', Delegated(nominators), Delegated(nominators));
    if w == v {
      assert new' == others + {k};
      SumInsert(others, Delegated(after), k);
    } else {
      assert new' == others;
    }
  }

  lemma {:induction false} InsertBackers(nominators: map<Hash, Backing>, backers: seq<(Hash, nat)>, n: nat, v: Hash)
    requires n <= |backers|
    ensures var after := WithBackers(nominators, backers, n, v);
      && (forall k :: k in after ==> after[k].validator == v || (k in nominators && after[k] == nominators[k]))
      && (forall w :: Behind(after, w) <= Behind(nominators, w) + (if w == v then BackerTotal(backers, n) else 0))
  {
    hide Behind;
    if n != 0 {
      InsertBackers(nominators, backers, n - 1, v);
      var before := WithBackers(nominators, backers, n - 1, v);
      var b := backers[n - 1];
      forall w ensures Behind(before[b.0 := Backing(b.1, v)], w) <= Behind(before, w) + (if w == v then b.1 else 0) {
        InsertBacker(before, b.0, b.1, v, w);
      }
    }
  }

  lemma NobodyBehind(nominators: map<Hash, Backing>, v: Hash)
    requires forall k :: k in nominators ==> nominators[k].validator != v
    ensures Behind(nominators, v) == 0
  {
    assert Backers(nominators, v) == {};
  }

  lemma ValidatorStep(validators: map<Hash, nat>, v: Hash, stake: nat)
    requires v !in validators
    ensures Sum(validators[v := stake].Keys, Stakes(validators[v := stake])) == Sum(validators.Keys, Stakes(validators)) + stake
  {
    hide Sum;
    var after := validators[v := stake];
    SumEqual(validators.Keys, Stakes(validators), Stakes(after));
    SumInsert(validators.Keys, Stakes(after), v);
    assert after.Keys == validators.Keys + {v};
  }

  /** A new validator with backers within its stake keeps the roll covered. */
  lemma CoveredStep(validators: map<Hash, nat>, nominators: map<Hash, Backing>, total: nat, e: Elected)
    requires Covered(validators, nominators, total) && e.pubkey !in validators
    requires BackerTotal(e.backers, |e.backers|) <= e.totalStake
    ensures Covered(validators[e.pubkey := e.totalStake], WithBackers(nominators, e.backers, |e.backers|, e.pubkey), total + e.totalStake)
  {
    hide Sum, Behind, BackerTotal, WithBackers;
    ValidatorStep(validators, e.pubkey, e.totalStake);
    InsertBackers(nominators, e.backers, |e.backers|, e.pubkey);
    NobodyBehind(nominators, e.pubkey);
  }

  lemma NobodyCovered()
    ensures Covered(map[], map[], 0)
  {
    var nobody: map<Hash, nat> := map[];
    assert nobody.Keys == {};
    SumEmpty(Stakes(nobody));
  }

  /** `from_election` turns a well-formed result into a covered roll. */
  lemma {:induction false} RollCovered(result: ElectionResult, n: nat)
    requires WellFormed(result) && n <= |result.elected|
    ensures Covered(Validators(result.elected, n), Nominators(result.elected, n), StakeTotal(result.elected, n))
    ensures forall v :: v in Validators(result.elected, n) ==> exists i :: 0 <= i < n && result.elected[i].pubkey == v
  {
    hide Covered, BackerTotal, WithBackers;
    var elected := result.elected;
    if n == 0 {
      NobodyCovered();
    } else {
      RollCovered(result, n - 1);
      var e := elected[n - 1];
      assert e in elected;
      assert e.pubkey !in Validators(elected, n - 1);
      CoveredStep(Validators(elected, n - 1), Nominators(elected, n - 1), StakeTotal(elected, n - 1), e);
    }
  }

  // ----- what the run keeps -----

  datatype StakedOp = CastVote(c: Cast) | OpenReveals | RevealVote(r: RevealedVote) | Close

  ghost function StakedStep(H: Hashes, id: nat, roll: Roll, s: Staked, op: StakedOp): Staked {
    match op
    case CastVote(c) => StakedCommitted(H, id, roll, s, c).0
    case OpenReveals => s.(ballot := Opened(s.ballot))
    case RevealVote(r) => s.(ballot := Revealed(H.compute, s.ballot, r).0)
    case Close => StakedFinalized(roll, s)
  }

  ghost function StakedRun(H: Hashes, id: nat, roll: Roll, s: Staked, ops: seq<StakedOp>): Staked
    decreases |ops|
  {
    if ops == [] then s else StakedRun(H, id, roll, StakedStep(H, id, roll, s, ops[0]), ops[1..])
  }

  lemma {:induction false} SealedStays(H: Hashes, id: nat, roll: Roll, s: Staked, ops: seq<StakedOp>, n: Hash)
    requires n in s.ballot.sealed
    ensures var t := StakedRun(H, id, roll, s, ops); n in t.ballot.sealed && t.ballot.sealed[n] == s.ballot.sealed[n]
    decreases |ops|
  {
    hide Counted, Effective;
    if ops != [] {
      SealedStays(H, id, roll, StakedStep(H, id, roll, s, ops[0]), ops[1..], n);
    }
  }

  /** A cast is accepted exactly from a key with power, under a new nullifier, while committing. It is sealed with that power, and
      at any later time, whatever happened in between, its own vote and blinding open it as soon as reveals are open, which one
      `start_reveal` brings about. */
  lemma CastCanBeOpened(H: Hashes, id: nat, roll: Roll, s: Staked, c: Cast, ops: seq<StakedOp>)
    ensures var n := H.derive(c.secret, id);
      StakedCommitted(H, id, roll, s, c).1.Success? <==> s.ballot.phase == Committing && PowerOf(roll, c.voter) > 0 && n !in s.ballot.sealed
    ensures var n, after := H.derive(c.secret, id), StakedCommitted(H, id, roll, s, c);
      after.1.Success? ==>
        var t := StakedRun(H, id, roll, after.0, ops);
        && n in t.ballot.sealed && t.ballot.sealed[n].power == PowerOf(roll, c.voter)
        && t.ballot.sealed[n].signer == c.voter && t.ballot.sealed[n].signature == c.signature
        && (t.ballot.phase == Committing ==> StakedStep(H, id, roll, t, OpenReveals).ballot.phase == Revealing)
        && (t.ballot.phase == Revealing ==>
              var done := Revealed(H.compute, t.ballot, RevealedVote(c.vote, c.blinding, n));
              done.1.Success? && n in done.0.revealed && done.0.revealed[n].vote == c.vote)
  {
    hide StakedRun;
    var after := StakedCommitted(H, id, roll, s, c);
    if after.1.Success? {
      SealedStays(H, id, roll, after.0, ops, H.derive(c.secret, id));
    }
  }

  /** A staked ballot is final once tallied. */
  lemma {:induction false} StakedIsFinal(H: Hashes, id: nat, roll: Roll, s: Staked, ops: seq<StakedOp>)
    requires s.ballot.phase == Tallied && s.ballot.tally == Counted(s.ballot.revealed, Effective(roll, s.ballot.sealed, s.voted))
    ensures StakedRun(H, id, roll, s, ops) == s
    decreases |ops|
  {
    hide Counted, Effective;
    if ops != [] {
      assert StakedStep(H, id, roll, s, ops[0]) == s;
      StakedIsFinal(H, id, roll, s, ops[1..]);
    }
  }

  /** Each voter key always votes under the same nullifier. */
  ghost predicate OneNullifier(H: Hashes, id: nat, nullifierOf: Hash -> Hash, ops: seq<StakedOp>) {
    forall i :: 0 <= i < |ops| && ops[i].CastVote? ==> H.derive(ops[i].c.secret, id) == nullifierOf(ops[i].c.voter)
  }

  /** A sealed vote carries the power of the key that cast it, under the nullifier of that key. */
  ghost predicate Kept(H: Hashes, id: nat, roll: Roll, nullifierOf: Hash -> Hash, s: Staked) {
    && s.voted.Keys == s.ballot.sealed.Keys && s.ballot.revealed.Keys <= s.voted.Keys
    && (forall n :: n in s.voted ==> s.ballot.sealed[n].power == PowerOf(roll, s.voted[n]) > 0)
    && (forall n :: n in s.voted ==> n == nullifierOf(s.voted[n]))
    && (s.ballot.phase == Tallied ==> s.ballot.tally == Counted(s.ballot.revealed, Effective(roll, s.ballot.sealed, s.voted)))
  }

  lemma StepKeeps(H: Hashes, id: nat, roll: Roll, nullifierOf: Hash -> Hash, s: Staked, op: StakedOp)
    requires Kept(H, id, roll, nullifierOf, s) && (op.CastVote? ==> H.derive(op.c.secret, id) == nullifierOf(op.c.voter))
    ensures Kept(H, id, roll, nullifierOf, StakedStep(H, id, roll, s, op))
  {
    hide Counted, Effective, PowerOf;
  }

  lemma {:induction false} RunKeeps(H: Hashes, id: nat, roll: Roll, nullifierOf: Hash -> Hash, s: Staked, ops: seq<StakedOp>)
    requires Kept(H, id, roll, nullifierOf, s) && OneNullifier(H, id, nullifierOf, ops)
    ensures Kept(H, id, roll, nullifierOf, StakedRun(H, id, roll, s, ops))
    decreases |ops|
  {
    hide Kept, StakedStep;
    if ops != [] {
      StepKeeps(H, id, roll, nullifierOf, s, ops[0]);
      RunKeeps(H, id, roll, nullifierOf, StakedStep(H, id, roll, s, ops[0]), ops[1..]);
    }
  }

  // ----- the count by key -----

  /** The keys behind a set of votes. */
  ghost function Voters(s: Staked, votes: set<Hash>): set<Hash> {
    Image(votes, s.voted)
  }

  /** The nominators who committed a vote. */
  ghost function Direct(roll: Roll, s: Staked): set<Hash> {
    set k | k in Voters(s, s.voted.Keys) && k in roll.nominators
  }

  /** The part of a validator's stake that voted by itself. */
  ghost function Taken(roll: Roll, s: Staked): Hash -> nat {
    v => Override(roll, s.voted, v)
  }

  ghost function LeftAt(roll: Roll, s: Staked, v: Hash): nat {
    SaturatingSub(StakeAt(roll.validators, v), Override(roll, s.voted, v))
  }

  ghost function Left(roll: Roll, s: Staked): Hash -> nat {
    v => LeftAt(roll, s, v)
  }

  ghost function Weight(roll: Roll, s: Staked): Hash -> nat {
    k => if k in roll.validators then LeftAt(roll, s, k) else DelegatedBy(roll.nominators, k)
  }

  ghost function ValidatorOf(roll: Roll): Hash -> Hash {
    k => if k in roll.nominators then roll.nominators[k].validator else k
  }

  /** No two votes of the same key. */
  lemma VotedInjective(H: Hashes, id: nat, roll: Roll, nullifierOf: Hash -> Hash, s: Staked, n: Hash, n': Hash)
    requires Kept(H, id, roll, nullifierOf, s) && n in s.voted && n' in s.voted && s.voted[n] == s.voted[n']
    ensures n == n'
  {
  }

  /** The tally is the weight of the keys that revealed. */
  lemma CountByKey(H: Hashes, id: nat, roll: Roll, nullifierOf: Hash -> Hash, s: Staked)
    requires Kept(H, id, roll, nullifierOf, s)
    ensures Counted(s.ballot.revealed, Effective(roll, s.ballot.sealed, s.voted)).Total()
         == Sum(Voters(s, s.ballot.revealed.Keys), Weight(roll, s))
  {
    hide Sum, Counted, Override;
    var power, keys := Effective(roll, s.ballot.sealed, s.voted), s.ballot.revealed.Keys;
    CountedTotal(s.ballot.revealed, power);
    forall n, n' | n in keys && n' in keys && s.voted[n] == s.voted[n'] ensures n == n' {
      VotedInjective(H, id, roll, nullifierOf, s, n, n');
    }
    forall n | n in keys ensures power(n) == Weight(roll, s)(s.voted[n]) {
    }
    SumImage(keys, s.voted, Weight(roll, s), power);
  }

  /** A validator loses the stake of its direct voters, key by key. */
  lemma TakenByKey(H: Hashes, id: nat, roll: Roll, nullifierOf: Hash -> Hash, s: Staked, v: Hash)
    requires Kept(H, id, roll, nullifierOf, s)
    ensures Taken(roll, s)(v) == Sum(Members(Direct(roll, s), ValidatorOf(roll), v), Delegated(roll.nominators))
  {
    hide Sum;
    var votes := Overriders(roll, s.voted, v);
    forall n, n' | n in votes && n' in votes && s.voted[n] == s.voted[n'] ensures n == n' {
      VotedInjective(H, id, roll, nullifierOf, s, n, n');
    }
    SumImage(votes, s.voted, Delegated(roll.nominators), StakeOf(roll, s.voted));
    assert Members(Direct(roll, s), ValidatorOf(roll), v) == Image(votes, s.voted);
  }

  /** What voted directly is what the validators lost. */
  lemma TakenTotal(H: Hashes, id: nat, roll: Roll, nullifierOf: Hash -> Hash, s: Staked)
    requires Kept(H, id, roll, nullifierOf, s) && Covered(roll.validators, roll.nominators, roll.totalPower)
    ensures Sum(roll.validators.Keys, Taken(roll, s)) == Sum(Direct(roll, s), Delegated(roll.nominators))
    ensures Sum(roll.validators.Keys, Left(roll, s)) + Sum(roll.validators.Keys, Taken(roll, s)) == roll.totalPower
  {
    hide Sum, Kept;
    var all := roll.validators.Keys;
    forall v | v in all
      ensures Taken(roll, s)(v) == Sum(Members(Direct(roll, s), ValidatorOf(roll), v), Delegated(roll.nominators))
      ensures Stakes(roll.validators)(v) == Left(roll, s)(v) + Taken(roll, s)(v)
    {
      TakenByKey(H, id, roll, nullifierOf, s, v);
      SumMono(Members(Direct(roll, s), ValidatorOf(roll), v), Backers(roll.nominators, v), Delegated(roll.nominators), Delegated(roll.nominators));
    }
    SumGroups(Direct(roll, s), all, ValidatorOf(roll), Delegated(roll.nominators), Taken(roll, s));
    SumAdd(all, Left(roll, s), Taken(roll, s), Stakes(roll.validators));
  }

  /** The keys that revealed, split into validators and nominators. */
  lemma SplitVoters(H: Hashes, id: nat, roll: Roll, nullifierOf: Hash -> Hash, s: Staked)
    requires Kept(H, id, roll, nullifierOf, s)
    ensures var keys := Voters(s, s.ballot.revealed.Keys);
      && keys - roll.validators.Keys <= Direct(roll, s)
      && Sum(keys, Weight(roll, s))
         == Sum(keys * roll.validators.Keys, Left(roll, s)) + Sum(keys - roll.validators.Keys, Delegated(roll.nominators))
  {
    hide Sum, Override;
    var keys := Voters(s, s.ballot.revealed.Keys);
    var mine, others := keys * roll.validators.Keys, keys - roll.validators.Keys;
    assert keys == mine + others;
    SumUnion(mine, others, Weight(roll, s));
    SumEqual(mine, Weight(roll, s), Left(roll, s));
    SumEqual(others, Weight(roll, s), Delegated(roll.nominators));
  }

  ghost function FinalTotal(roll: Roll, s: Staked): nat {
    StakedFinalized(roll, s).ballot.tally.Total()
  }

  lemma AtMostTotalPower(H: Hashes, id: nat, roll: Roll, nullifierOf: Hash -> Hash, s: Staked)
    requires Kept(H, id, roll, nullifierOf, s) && Covered(roll.validators, roll.nominators, roll.totalPower)
    ensures FinalTotal(roll, s) <= roll.totalPower
  {
    hide Sum, Kept, Covered, Voters, Direct, Left, Counted, Effective;
    var keys, all := Voters(s, s.ballot.revealed.Keys), roll.validators.Keys;
    CountByKey(H, id, roll, nullifierOf, s);
    SplitVoters(H, id, roll, nullifierOf, s);
    TakenTotal(H, id, roll, nullifierOf, s);
    SumMono(keys * all, all, Left(roll, s), Left(roll, s));
    SumMono(keys - all, Direct(roll, s), Delegated(roll.nominators), Delegated(roll.nominators));
  }

  /** Every validator with stake committed a vote, everyone who committed revealed, and nobody is both validator and
      nominator. */
  ghost predicate FullTurnout(roll: Roll, s: Staked) {
    && roll.validators.Keys !! roll.nominators.Keys
    && s.ballot.revealed.Keys == s.voted.Keys
    && forall v :: v in roll.validators && roll.validators[v] > 0 ==> v in Voters(s, s.voted.Keys)
  }

  lemma FullTurnoutTotal(H: Hashes, id: nat, roll: Roll, nullifierOf: Hash -> Hash, s: Staked)
    requires Kept(H, id, roll, nullifierOf, s) && Covered(roll.validators, roll.nominators, roll.totalPower) && FullTurnout(roll, s)
    ensures FinalTotal(roll, s) == roll.totalPower
  {
    hide Sum, Covered, Counted, Effective, Override;
    var keys, all := Voters(s, s.ballot.revealed.Keys), roll.validators.Keys;
    CountByKey(H, id, roll, nullifierOf, s);
    SplitVoters(H, id, roll, nullifierOf, s);
    TakenTotal(H, id, roll, nullifierOf, s);
    assert keys - all == Direct(roll, s);
    var idle := all - keys;
    SumUnion(keys * all, idle, Left(roll, s));
    assert all == keys * all + idle;
    SumZero(idle, Left(roll, s));
  }

  lemma {:induction false} SumZero(s: set<Hash>, f: Hash -> nat)
    requires forall x :: x in s ==> f(x) == 0
    ensures Sum(s, f) == 0
    decreases |s|
  {
    if s != {} {
      var x :| x in s;
      SumRemove(s, f, x);
      SumZero(s - {x}, f);
    }
  }

  // ----- over every run -----

  /** For every well-formed election and every run in which each key uses one nullifier, the tally never exceeds the elected
      stake, and it is all of it at full turnout. */
  lemma StakeCountedOnce(H: Hashes, id: nat, result: ElectionResult, nullifierOf: Hash -> Hash, ops: seq<StakedOp>)
    requires WellFormed(result) && OneNullifier(H, id, nullifierOf, ops)
    ensures var s := StakedRun(H, id, RollOf(result), Staked(Fresh(), map[]), ops);
      && (s.ballot.phase == Tallied ==> s.ballot.tally.Total() <= result.totalStake)
      && (s.ballot.phase == Tallied && FullTurnout(RollOf(result), s) ==> s.ballot.tally.Total() == result.totalStake)
  {
    hide Counted, Effective, Covered, FullTurnout, StakedRun, WellFormed;
    var roll := RollOf(result);
    RollCovered(result, |result.elected|);
    assert result.totalStake == StakeTotal(result.elected, |result.elected|) by { TotalIsSum(result); }
    RunKeeps(H, id, roll, nullifierOf, Staked(Fresh(), map[]), ops);
    var s := StakedRun(H, id, roll, Staked(Fresh(), map[]), ops);
    if s.ballot.phase == Tallied {
      AtMostTotalPower(H, id, roll, nullifierOf, s);
      if FullTurnout(roll, s) {
        FullTurnoutTotal(H, id, roll, nullifierOf, s);
      }
    }
  }

  /** No run meets a quorum above 100%, and full turnout of a positive stake meets every other. */
  lemma QuorumReached(H: Hashes, id: nat, result: ElectionResult, nullifierOf: Hash -> Hash, ops: seq<StakedOp>, quorumBps: nat)
    requires WellFormed(result) && OneNullifier(H, id, nullifierOf, ops)
    ensures var s := StakedRun(H, id, RollOf(result), Staked(Fresh(), map[]), ops);
      s.ballot.phase == Tallied ==>
        && (s.ballot.tally.MeetsQuorum(result.totalStake, quorumBps) ==> quorumBps <= 10000)
        && (FullTurnout(RollOf(result), s) && result.totalStake > 0 && quorumBps <= 10000 ==>
              s.ballot.tally.MeetsQuorum(result.totalStake, quorumBps))
  {
    hide FullTurnout, StakedRun, WellFormed, OneNullifier;
    StakeCountedOnce(H, id, result, nullifierOf, ops);
    Scaled(result.totalStake, quorumBps);
  }

  lemma Scaled(p: nat, q: nat)
    ensures q <= 10000 ==> p * q <= p * 10000
    ensures q > 10000 && p > 0 ==> p * q > p * 10000
  {
    var d := if q <= 10000 then 10000 - q else q - 10000;
    ProductPositive(p, d);
  }

  lemma {:induction false} ProductPositive(p: nat, d: nat)
    ensures p * d >= 0 && (p > 0 && d > 0 ==> p * d > 0)
  {
    if d != 0 {
      ProductPositive(p, d - 1);
      assert p * d == p * (d - 1) + p;
    }
  }

  lemma TotalIsSum(result: ElectionResult)
    requires WellFormed(result)
    ensures result.totalStake == StakeTotal(result.elected, |result.elected|)
  {
  }

  lemma {:induction false} RunThen(H: Hashes, id: nat, roll: Roll, s: Staked, ops: seq<StakedOp>, op: StakedOp)
    ensures StakedRun(H, id, roll, s, ops + [op]) == StakedStep(H, id, roll, StakedRun(H, id, roll, s, ops), op)
    decreases |ops|
  {
    if ops == [] {
      assert ([op])[1..] == [] && ops + [op] == [op];
    } else {
      assert (ops + [op])[1..] == ops[1..] + [op];
      RunThen(H, id, roll, StakedStep(H, id, roll, s, ops[0]), ops[1..], op);
    }
  }

  /** An election of one validator without nominators. */
  lemma OneValidator(key: Hash) returns (result: ElectionResult)
    ensures WellFormed(result) && RollOf(result) == Roll(map[key := 5], map[], 5) && result.totalStake == 5
  {
    result := ElectionResult([Elected(key, 5, 5, [])], 5);
    var e := result.elected;
    assert Validators(e, 0) == map[] && Nominators(e, 0) == map[] && StakeTotal(e, 0) == 0;
    assert Validators(e, 1) == map[key := 5];
    assert WithBackers(Nominators(e, 0), e[0].backers, 0, key) == map[];
    assert Nominators(e, 1) == map[];
    assert StakeTotal(e, 1) == 5;
  }

  /** A key that votes under two nullifiers is counted twice. */
  lemma TwoSecretsCountTwice(H: Hashes, id: nat, key: Hash, a: Hash, b: Hash) returns (result: ElectionResult, ops: seq<StakedOp>)
    requires H.derive(a, id) != H.derive(b, id)
    ensures WellFormed(result)
    ensures forall i :: 0 <= i < |ops| && ops[i].CastVote? ==> ops[i].c.voter == key && ops[i].c.secret in {a, b}
    ensures var s := StakedRun(H, id, RollOf(result), Staked(Fresh(), map[]), ops);
      s.ballot.phase == Tallied && s.ballot.tally.Total() == 2 * result.totalStake > 0
  {
    hide Counted, Effective, StakedRun, WellFormed, RollOf;
    result := OneValidator(key);
    var roll := RollOf(result);
    var blinding, signature: seq<byte> := seq(32, i => 0), seq(64, i => 0);
    var x, y := H.derive(a, id), H.derive(b, id);
    var s0 := Staked(Fresh(), map[]);
    var s := s0;
    ops := [];
    RunNone(H, id, roll, s0);
    ops, s := Extend(H, id, roll, s0, ops, s, CastVote(Cast(key, a, Yes, blinding, signature)));
    assert s.voted == map[x := key] && s.ballot.phase == Committing && s.ballot.sealed.Keys == {x};
    ops, s := Extend(H, id, roll, s0, ops, s, CastVote(Cast(key, b, Yes, blinding, signature)));
    ops, s := Extend(H, id, roll, s0, ops, s, OpenReveals);
    ops, s := Extend(H, id, roll, s0, ops, s, RevealVote(RevealedVote(Yes, blinding, x)));
    ops, s := Extend(H, id, roll, s0, ops, s, RevealVote(RevealedVote(Yes, blinding, y)));
    assert s.ballot.revealed.Keys == {x, y} && s.voted == map[x := key, y := key];
    assert s.ballot.sealed[x].power == 5 && s.ballot.sealed[y].power == 5;
    var t := s;
    ops, s := Extend(H, id, roll, s0, ops, s, Close);
    TwoVotes(roll, t, x, y);
  }

  /** Every vote of the run is cast by a key with a secret allowed for it. */
  ghost predicate Within(allowed: (Hash, Hash) -> bool, ops: seq<StakedOp>) {
    forall i :: 0 <= i < |ops| && ops[i].CastVote? ==> allowed(ops[i].c.voter, ops[i].c.secret)
  }

  /** A tallied run counts at most the elected stake. */
  ghost predicate Bounded(H: Hashes, id: nat, result: ElectionResult, ops: seq<StakedOp>) {
    var s := StakedRun(H, id, RollOf(result), Staked(Fresh(), map[]), ops);
    s.ballot.phase == Tallied ==> s.ballot.tally.Total() <= result.totalStake
  }

  /** The secrets allowed for one key all derive the same nullifier. */
  ghost predicate OneVoteEach(H: Hashes, id: nat, allowed: (Hash, Hash) -> bool) {
    forall k, a, b :: allowed(k, a) && allowed(k, b) ==> H.derive(a, id) == H.derive(b, id)
  }

  /** Whatever keys and secrets may be combined: the tally of every election and every run stays within the elected stake
      exactly when no key can vote under two nullifiers. */
  lemma StakeBoundExactly(H: Hashes, id: nat, allowed: (Hash, Hash) -> bool)
    ensures (forall result, ops :: WellFormed(result) && Within(allowed, ops) ==> Bounded(H, id, result, ops))
      <==> OneVoteEach(H, id, allowed)
  {
    hide WellFormed, StakedRun;
    if OneVoteEach(H, id, allowed) {
      var nullifierOf := NullifierOf(H, id, allowed);
      forall result, ops | WellFormed(result) && Within(allowed, ops) ensures Bounded(H, id, result, ops) {
        StakeCountedOnce(H, id, result, nullifierOf, ops);
      }
    } else {
      var k, a, b :| allowed(k, a) && allowed(k, b) && H.derive(a, id) != H.derive(b, id);
      var result, ops := TwoSecretsCountTwice(H, id, k, a, b);
      assert Within(allowed, ops) && !Bounded(H, id, result, ops);
    }
  }

  ghost function NullifierOf(H: Hashes, id: nat, allowed: (Hash, Hash) -> bool): (f: Hash -> Hash)
    requires OneVoteEach(H, id, allowed)
    ensures forall k, a :: allowed(k, a) ==> H.derive(a, id) == f(k)
  {
    k => if exists a :: allowed(k, a) then var a :| allowed(k, a); H.derive(a, id) else []
  }

  lemma RunNone(H: Hashes, id: nat, roll: Roll, s: Staked)
    ensures StakedRun(H, id, roll, s, []) == s
  {
  }

  lemma Extend(H: Hashes, id: nat, roll: Roll, s0: Staked, ops: seq<StakedOp>, s: Staked, op: StakedOp) returns (ops': seq<StakedOp>, s': Staked)
    requires StakedRun(H, id, roll, s0, ops) == s
    ensures ops' == ops + [op] && s' == StakedStep(H, id, roll, s, op) && StakedRun(H, id, roll, s0, ops') == s'
  {
    RunThen(H, id, roll, s0, ops, op);
    ops', s' := ops + [op], StakedStep(H, id, roll, s, op);
  }

  lemma TwoVotes(roll: Roll, s: Staked, x: Hash, y: Hash)
    requires x != y && s.ballot.revealed.Keys == {x, y} == s.voted.Keys == s.ballot.sealed.Keys && roll.nominators == map[]
    ensures Counted(s.ballot.revealed, Effective(roll, s.ballot.sealed, s.voted)).Total() == s.ballot.sealed[x].power + s.ballot.sealed[y].power
  {
    hide Sum;
    var power := Effective(roll, s.ballot.sealed, s.voted);
    CountedTotal(s.ballot.revealed, power);
    SumInsert({}, power, x);
    SumInsert({x}, power, y);
    SumEmpty(power);
    assert {x} + {y} == {x, y} && {} + {x} == {x};
    forall v ensures Override(roll, s.voted, v) == 0 {
      assert Overriders(roll, s.voted, v) == {};
      SumEmpty(StakeOf(roll, s.voted));
    }
  }
}
