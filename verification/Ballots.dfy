/** Commit-reveal voting: a ballot collects sealed votes, then openings of them, then tallies. */
module Ballots {
  import opened Wrappers
  import opened Bytes
  import opened Sums

  type Hash = seq<byte>

  datatype Vote = Yes | No | Abstain
  datatype Phase = Committing | Revealing | Tallied | Cancelled
  datatype Error = WrongPhase(expected: Phase, got: Phase) | DuplicateNullifier | InvalidReveal | NoCommitment | ZeroPower
  type Reply = Result<(), Error>
  datatype Outcome = Pass | Fail | Slash

  datatype SealedVote = SealedVote(commitment: Hash, nullifier: Hash, power: nat, signature: seq<byte>, signer: Hash)
  datatype RevealedVote = RevealedVote(vote: Vote, blinding: Hash, nullifier: Hash)

  /** `VoteCommitment::compute`: the hash of vote, blinding and nullifier. */
  type Commitment = (Vote, Hash, Hash) -> Hash

  datatype Tally = Tally(yes: nat, no: nat, abstain: nat) {
    function Total(): nat { yes + no + abstain }

    function Add(vote: Vote, power: nat): Tally {
      match vote
      case Yes => this.(yes := yes + power)
      case No => this.(no := no + power)
      case Abstain => this.(abstain := abstain + power)
    }

    predicate MeetsQuorum(totalPower: nat, quorumBps: nat) {
      totalPower != 0 && Total() * 10000 >= totalPower * quorumBps
    }

    /** The least power that has to be added to meet the quorum. */
    function Shortfall(totalPower: nat, quorumBps: nat): nat {
      var needed := (totalPower * quorumBps + 9999) / 10000;
      if needed <= Total() then 0 else needed - Total()
    }

    predicate Slashed(slashBps: nat) {
      Total() > 0 && no * 10000 > Total() * slashBps
    }

    /** `yes_ratio` */
    function YesRatio(): (nat, nat) {
      if yes + no == 0 then (0, 1) else (yes, yes + no)
    }

    predicate Passes(passBps: nat) {
      YesRatio().0 * 10000 >= YesRatio().1 * passBps
    }

    function Outcome(totalPower: nat, quorumBps: nat, passBps: nat, slashBps: nat): Outcome {
      if !MeetsQuorum(totalPower, quorumBps) then Fail
      else if Slashed(slashBps) then Slash
      else if Passes(passBps) then Pass
      else Fail
    }
  }

  datatype State = State(phase: Phase, sealed: map<Hash, SealedVote>, revealed: map<Hash, RevealedVote>, tally: Tally)

  function Fresh(): State {
    State(Committing, map[], map[], Tally(0, 0, 0))
  }

  // ----- the operations on values -----

  function Committed(s: State, v: SealedVote): (State, Reply) {
    if s.phase != Committing then (s, Failure(WrongPhase(Committing, s.phase)))
    else if v.power == 0 then (s, Failure(ZeroPower))
    else if v.nullifier in s.sealed then (s, Failure(DuplicateNullifier))
    else (s.(sealed := s.sealed[v.nullifier := v]), Success(()))
  }

  function Opened(s: State): State {
    if s.phase == Committing then s.(phase := Revealing) else s
  }

  predicate Opens(compute: Commitment, sealed: map<Hash, SealedVote>, r: RevealedVote) {
    r.nullifier in sealed && compute(r.vote, r.blinding, r.nullifier) == sealed[r.nullifier].commitment
  }

  function Revealed(compute: Commitment, s: State, r: RevealedVote): (State, Reply) {
    if s.phase != Revealing then (s, Failure(WrongPhase(Revealing, s.phase)))
    else if r.nullifier !in s.sealed then (s, Failure(NoCommitment))
    else if !Opens(compute, s.sealed, r) then (s, Failure(InvalidReveal))
    else (s.(revealed := s.revealed[r.nullifier := r]), Success(()))
  }

  /** The votes of one kind. */
  ghost function Voting(revealed: map<Hash, RevealedVote>, vote: Vote): set<Hash> {
    set n | n in revealed && revealed[n].vote == vote
  }

  /** Each choice gets the summed power of the revealed votes for it. */
  ghost function Counted(revealed: map<Hash, RevealedVote>, power: Hash -> nat): Tally {
    Tally(Sum(Voting(revealed, Yes), power), Sum(Voting(revealed, No), power), Sum(Voting(revealed, Abstain), power))
  }

  function PowerIn(sealed: map<Hash, SealedVote>): Hash -> nat {
    n => if n in sealed then sealed[n].power else 0
  }

  ghost function Finalized(s: State): State {
    s.(phase := Tallied, tally := Counted(s.revealed, PowerIn(s.sealed)))
  }

  // ----- the ballot -----

  class Ballot {
    const proposalId: nat
    const commitDeadline: nat
    const revealDeadline: nat
    var phase: Phase
    var sealed: map<Hash, SealedVote>
    var revealed: map<Hash, RevealedVote>
    var tally: Tally

    ghost function Value(): State
      reads this
    {
      State(phase, sealed, revealed, tally)
    }

    constructor (proposalId: nat, commitDeadline: nat, revealDeadline: nat)
      ensures Value() == Fresh() && this.proposalId == proposalId
      ensures this.commitDeadline == commitDeadline && this.revealDeadline == revealDeadline
    {
      this.proposalId, this.commitDeadline, this.revealDeadline := proposalId, commitDeadline, revealDeadline;
      phase, sealed, revealed, tally := Committing, map[], map[], Tally(0, 0, 0);
    }

    method Commit(v: SealedVote) returns (r: Reply)
      modifies this`sealed
      ensures (Value(), r) == Committed(old(Value()), v)
    {
      if phase != Committing {
        return Failure(WrongPhase(Committing, phase));
      }
      if v.power == 0 {
        return Failure(ZeroPower);
      }
      if v.nullifier in sealed {
        return Failure(DuplicateNullifier);
      }
      sealed := sealed[v.nullifier := v];
      return Success(());
    }

    method StartReveal()
      modifies this`phase
      ensures Value() == Opened(old(Value()))
    {
      if phase == Committing {
        phase := Revealing;
      }
    }

    method Reveal(compute: Commitment, v: RevealedVote) returns (r: Reply)
      modifies this`revealed
      ensures (Value(), r) == Revealed(compute, old(Value()), v)
    {
      if phase != Revealing {
        return Failure(WrongPhase(Revealing, phase));
      }
      if v.nullifier !in sealed {
        return Failure(NoCommitment);
      }
      if compute(v.vote, v.blinding, v.nullifier) != sealed[v.nullifier].commitment {
        return Failure(InvalidReveal);
      }
      revealed := revealed[v.nullifier := v];
      return Success(());
    }

    method Finalize()
      modifies this`tally, this`phase
      ensures Value() == Finalized(old(Value()))
    {
      hide Counted;
      var count := Tally(0, 0, 0);
      var todo := revealed.Keys;
      ghost var power := PowerIn(sealed);
      CountedEmpty(power);
      assert revealed - todo == map[];
      while todo != {}
        invariant todo <= revealed.Keys
        invariant count == Counted(revealed - todo, power)
        decreases |todo|
      {
        var nf :| nf in todo;
        SeenStep(revealed, todo, nf);
        CountedStep(revealed - todo, nf, revealed[nf], power);
        todo := todo - {nf};
        if nf in sealed {
          count := count.Add(revealed[nf].vote, sealed[nf].power);
        }
      }
      assert revealed - {} == revealed;
      tally := count;
      phase := Tallied;
    }
  }

  lemma CountedEmpty(power: Hash -> nat)
    ensures Counted(map[], power) == Tally(0, 0, 0)
  {
    assert forall v :: Voting(map[], v) == {};
  }

  lemma SeenStep<V>(m: map<Hash, V>, todo: set<Hash>, n: Hash)
    requires n in todo && todo <= m.Keys
    ensures m - (todo - {n}) == (m - todo)[n := m[n]] && n !in m - todo
  {
  }

  lemma CountedStep(seen: map<Hash, RevealedVote>, n: Hash, r: RevealedVote, power: Hash -> nat)
    requires n !in seen
    ensures Counted(seen[n := r], power) == Counted(seen, power).Add(r.vote, power(n))
  {
    hide Sum;
    assert forall v :: Voting(seen[n := r], v) == if v == r.vote then Voting(seen, v) + {n} else Voting(seen, v);
    SumInsert(Voting(seen, r.vote), power, n);
  }

  /** The three counts together are the power of everyone who revealed. */
  lemma CountedTotal(revealed: map<Hash, RevealedVote>, power: Hash -> nat)
    ensures Counted(revealed, power).Total() == Sum(revealed.Keys, power)
  {
    hide Sum;
    var yes, no, abstain := Voting(revealed, Yes), Voting(revealed, No), Voting(revealed, Abstain);
    SumUnion(yes, no, power);
    SumUnion(yes + no, abstain, power);
    assert yes + no + abstain == revealed.Keys;
  }

  // ----- runs -----

  datatype Op = Commit(v: SealedVote) | StartReveal | Reveal(r: RevealedVote) | Finalize

  ghost function Step(compute: Commitment, s: State, op: Op): State {
    match op
    case Commit(v) => Committed(s, v).0
    case StartReveal => Opened(s)
    case Reveal(r) => Revealed(compute, s, r).0
    case Finalize => Finalized(s)
  }

  ghost function Run(compute: Commitment, s: State, ops: seq<Op>): State
    decreases |ops|
  {
    if ops == [] then s else Run(compute, Step(compute, s, ops[0]), ops[1..])
  }

  /** Every recorded reveal opens the commitment sealed under its nullifier; nothing is revealed while committing. */
  ghost predicate Recorded(compute: Commitment, s: State) {
    && (forall n :: n in s.sealed ==> s.sealed[n].nullifier == n && s.sealed[n].power > 0)
    && (forall n :: n in s.revealed ==> s.revealed[n].nullifier == n && Opens(compute, s.sealed, s.revealed[n]))
    && (s.phase == Committing ==> s.revealed == map[])
  }

  /** The record is in order and a tallied ballot shows the count of its reveals. */
  ghost predicate Sound(compute: Commitment, s: State) {
    && Recorded(compute, s)
    && (s.phase == Tallied ==> s.tally == Counted(s.revealed, PowerIn(s.sealed)))
  }

  lemma StepIsSound(compute: Commitment, s: State, op: Op)
    requires Sound(compute, s)
    ensures Sound(compute, Step(compute, s, op))
  {
    hide Counted;
  }

  /** Soundness holds in every state of every run of a ballot. */
  lemma {:induction false} RunIsSound(compute: Commitment, s: State, ops: seq<Op>)
    requires Sound(compute, s)
    ensures Sound(compute, Run(compute, s, ops))
    decreases |ops|
  {
    if ops != [] {
      StepIsSound(compute, s, ops[0]);
      RunIsSound(compute, Step(compute, s, ops[0]), ops[1..]);
    }
  }

  lemma FreshIsSound(compute: Commitment)
    ensures Sound(compute, Fresh())
  {
  }

  /** A sealed vote is never replaced, and once committing is over none is added: the second vote of a nullifier and a
      late vote have no effect on any later state. */
  lemma {:induction false} SealedNeverChanges(compute: Commitment, s: State, ops: seq<Op>)
    ensures var t := Run(compute, s, ops); forall n :: n in s.sealed ==> n in t.sealed && t.sealed[n] == s.sealed[n]
    ensures s.phase != Committing ==> Run(compute, s, ops).sealed == s.sealed && Run(compute, s, ops).phase != Committing
    decreases |ops|
  {
    hide Counted;
    if ops != [] {
      SealedNeverChanges(compute, Step(compute, s, ops[0]), ops[1..]);
    }
  }

  /** No two of the openings show different votes under one nullifier and one commitment. */
  ghost predicate NoEquivocation(compute: Commitment, openings: set<RevealedVote>) {
    forall r, r' :: r in openings && r' in openings && r.nullifier == r'.nullifier ==>
      compute(r.vote, r.blinding, r.nullifier) == compute(r'.vote, r'.blinding, r.nullifier) ==> r.vote == r'.vote
  }

  function Reveals(rs: seq<RevealedVote>): (ops: seq<Op>)
    ensures |ops| == |rs|
  {
    seq(|rs|, i requires 0 <= i < |rs| => Reveal(rs[i]))
  }

  /** A run of reveals records exactly the nullifiers of the valid openings among them. */
  lemma {:induction false} RevealedKeys(compute: Commitment, s: State, rs: seq<RevealedVote>)
    requires s.phase == Revealing
    ensures var t := Run(compute, s, Reveals(rs));
      && t.phase == Revealing && t.sealed == s.sealed
      && t.revealed.Keys == s.revealed.Keys + set r | r in rs && Opens(compute, s.sealed, r) :: r.nullifier
    decreases |rs|
  {
    if rs != [] {
      var t := Step(compute, s, Reveals(rs)[0]);
      assert Reveals(rs)[1..] == Reveals(rs[1..]);
      RevealedKeys(compute, t, rs[1..]);
      assert (set r | r in rs && Opens(compute, s.sealed, r) :: r.nullifier)
          == (set r | r in [rs[0]] && Opens(compute, s.sealed, r) :: r.nullifier)
           + (set r | r in rs[1..] && Opens(compute, s.sealed, r) :: r.nullifier);
    }
  }

  /** What is recorded was recorded before or is one of the reveals. */
  lemma {:induction false} RevealedFrom(compute: Commitment, s: State, rs: seq<RevealedVote>, n: Hash)
    requires s.phase == Revealing && n in Run(compute, s, Reveals(rs)).revealed
    ensures var r := Run(compute, s, Reveals(rs)).revealed[n]; r in s.revealed.Values || r in rs
    decreases |rs|
  {
    if rs != [] {
      var t := Step(compute, s, Reveals(rs)[0]);
      assert Reveals(rs)[1..] == Reveals(rs[1..]);
      RevealedFrom(compute, t, rs[1..], n);
    }
  }

  /** Two sound states that reveal the same nullifiers of the same sealed votes have the same count. */
  lemma SameKeysSameCount(compute: Commitment, openings: set<RevealedVote>, s: State, t: State)
    requires NoEquivocation(compute, openings) && Recorded(compute, s) && Recorded(compute, t)
    requires forall n :: n in s.revealed ==> s.revealed[n] in openings
    requires forall n :: n in t.revealed ==> t.revealed[n] in openings
    requires s.sealed == t.sealed && s.revealed.Keys == t.revealed.Keys
    ensures Finalized(s).tally == Finalized(t).tally
  {
    forall v ensures Voting(s.revealed, v) == Voting(t.revealed, v) {
      forall n | n in s.revealed.Keys ensures s.revealed[n].vote == t.revealed[n].vote {
        assert n in t.revealed;
      }
    }
  }

  /** Unless two of the openings at hand show different votes for one commitment, the tally does not depend on the order or
      the repetition of the reveals. */
  lemma TallyIgnoresOrder(compute: Commitment, s: State, rs: seq<RevealedVote>, rs': seq<RevealedVote>)
    requires NoEquivocation(compute, (set r | r in rs) + s.revealed.Values)
    requires Sound(compute, s) && s.phase == Revealing
    requires forall r :: r in rs <==> r in rs'
    ensures Finalized(Run(compute, s, Reveals(rs))).tally == Finalized(Run(compute, s, Reveals(rs'))).tally
  {
    hide Run, Counted, NoEquivocation, Reveals;
    var openings := (set r | r in rs) + s.revealed.Values;
    var t, t' := Run(compute, s, Reveals(rs)), Run(compute, s, Reveals(rs'));
    RunIsSound(compute, s, Reveals(rs));
    RunIsSound(compute, s, Reveals(rs'));
    RevealedKeys(compute, s, rs);
    RevealedKeys(compute, s, rs');
    assert (set r | r in rs && Opens(compute, s.sealed, r) :: r.nullifier)
        == (set r | r in rs' && Opens(compute, s.sealed, r) :: r.nullifier);
    forall n | n in t.revealed ensures t.revealed[n] in openings {
      RevealedFrom(compute, s, rs, n);
    }
    forall n | n in t'.revealed ensures t'.revealed[n] in openings {
      RevealedFrom(compute, s, rs', n);
    }
    SameKeysSameCount(compute, openings, t, t');
  }

  /** In every run, whatever came before, a tallied ballot totals the sealed power of the revealed nullifiers, and
      nobody is counted who did not commit first. */
  lemma TallyTotals(compute: Commitment, ops: seq<Op>)
    ensures var t := Run(compute, Fresh(), ops);
      && t.revealed.Keys <= t.sealed.Keys
      && (t.phase == Tallied ==> t.tally.Total() == Sum(t.revealed.Keys, PowerIn(t.sealed)))
  {
    hide Run, Counted, Sum;
    FreshIsSound(compute);
    RunIsSound(compute, Fresh(), ops);
    var t := Run(compute, Fresh(), ops);
    CountedTotal(t.revealed, PowerIn(t.sealed));
  }

  /** A tallied ballot is final: no later operation changes anything. */
  lemma {:induction false} TalliedIsFinal(compute: Commitment, s: State, ops: seq<Op>)
    requires Sound(compute, s) && s.phase == Tallied
    ensures Run(compute, s, ops) == s
    decreases |ops|
  {
    hide Counted, Recorded;
    if ops != [] {
      assert Step(compute, s, ops[0]) == s;
      TalliedIsFinal(compute, s, ops[1..]);
    }
  }

  /** A valid reveal of a nullifier not yet revealed adds the sealed power to its choice and to nothing else. */
  lemma RevealAdds(compute: Commitment, s: State, r: RevealedVote)
    requires Revealed(compute, s, r).1.Success? && r.nullifier !in s.revealed
    ensures var before, after, power := Finalized(s).tally, Finalized(Revealed(compute, s, r).0).tally, s.sealed[r.nullifier].power;
      && after.yes == before.yes + (if r.vote == Yes then power else 0)
      && after.no == before.no + (if r.vote == No then power else 0)
      && after.abstain == before.abstain + (if r.vote == Abstain then power else 0)
    ensures Finalized(Fresh()).tally == Tally(0, 0, 0)
  {
    hide Counted;
    CountedStep(s.revealed, r.nullifier, r, PowerIn(s.sealed));
    CountedEmpty(PowerIn(map[]));
    CountedEmpty(PowerIn(Fresh().sealed));
  }

  /** Which votes and openings are refused, and why. */
  lemma Refusals(compute: Commitment, s: State, v: SealedVote, r: RevealedVote)
    ensures var reply := Committed(s, v).1;
      && (reply.Success? <==> s.phase == Committing && v.power > 0 && v.nullifier !in s.sealed)
      && (reply == Failure(WrongPhase(Committing, s.phase)) <==> s.phase != Committing)
      && (reply == Failure(ZeroPower) <==> s.phase == Committing && v.power == 0)
      && (reply == Failure(DuplicateNullifier) <==> s.phase == Committing && v.power > 0 && v.nullifier in s.sealed)
    ensures var reply := Revealed(compute, s, r).1;
      && (reply.Success? <==>
            s.phase == Revealing && r.nullifier in s.sealed && compute(r.vote, r.blinding, r.nullifier) == s.sealed[r.nullifier].commitment)
      && (reply == Failure(WrongPhase(Revealing, s.phase)) <==> s.phase != Revealing)
      && (reply == Failure(NoCommitment) <==> s.phase == Revealing && r.nullifier !in s.sealed)
    ensures Committed(s, v).1.Failure? ==> Committed(s, v).0 == s
    ensures Revealed(compute, s, r).1.Failure? ==> Revealed(compute, s, r).0 == s
  {
  }

  // ----- outcomes -----

  lemma Grows(a: nat, x: nat, b: nat)
    ensures (a + x) * b == a * b + x * b && x * b >= 0
  {
  }

  lemma {:induction false} AtMostScaled(x: nat, b: nat, c: nat)
    requires b <= c
    ensures x * b <= x * c
  {
    if x != 0 {
      AtMostScaled(x - 1, b, c);
      Grows(x - 1, 1, b);
      Grows(x - 1, 1, c);
    }
  }

  lemma SlashedMeans(t: Tally, slashBps: nat)
    ensures t.Slashed(slashBps) <==> t.no * 10000 > t.Total() * slashBps
  {
    if t.Total() == 0 {
      Grows(0, 0, slashBps);
    }
  }

  lemma PassesMeans(t: Tally, passBps: nat)
    ensures t.yes + t.no > 0 ==> (t.Passes(passBps) <==> t.yes * 10000 >= (t.yes + t.no) * passBps)
    ensures t.yes + t.no == 0 ==> (t.Passes(passBps) <==> passBps == 0)
  {
  }

  /** The outcome in numbers: slashed if no exceeds its part of all votes, else passed if yes reaches its part of the votes that
      are not abstentions, and neither without the quorum. */
  lemma OutcomeExactly(yes: nat, no: nat, abstain: nat, totalPower: nat, quorumBps: nat, passBps: nat, slashBps: nat)
    ensures var outcome, voted := Tally(yes, no, abstain).Outcome(totalPower, quorumBps, passBps, slashBps), yes + no + abstain;
      var quorum, slash := totalPower > 0 && voted * 10000 >= totalPower * quorumBps, no * 10000 > voted * slashBps;
      && (outcome == Slash <==> quorum && slash)
      && (outcome == Pass <==> quorum && !slash && if yes + no == 0 then passBps == 0 else yes * 10000 >= (yes + no) * passBps)
  {
    hide Tally.Slashed, Tally.Passes;
    SlashedMeans(Tally(yes, no, abstain), slashBps);
    PassesMeans(Tally(yes, no, abstain), passBps);
  }

  /** Thresholds above 100% are never met. */
  lemma NeverMet(t: Tally, bps: nat)
    requires bps > 10000
    ensures !t.Passes(bps) && !t.Slashed(bps)
  {
    hide Tally.Slashed, Tally.Passes;
    SlashedMeans(t, bps);
    PassesMeans(t, bps);
    AtMostScaled(t.yes + t.no, 10001, bps);
    AtMostScaled(t.Total(), 10001, bps);
  }

  /** More yes power never turns a passed proposal. */
  lemma YesNeverHurts(t: Tally, x: nat, totalPower: nat, quorumBps: nat, passBps: nat, slashBps: nat)
    requires t.Outcome(totalPower, quorumBps, passBps, slashBps) == Pass
    ensures t.Add(Yes, x).Outcome(totalPower, quorumBps, passBps, slashBps) == Pass
  {
    hide Tally.Slashed, Tally.Passes;
    var u := t.Add(Yes, x);
    SlashedMeans(t, slashBps);
    SlashedMeans(u, slashBps);
    Grows(t.Total(), x, slashBps);
    PassesMeans(t, passBps);
    PassesMeans(u, passBps);
    Grows(t.yes + t.no, x, passBps);
    if passBps > 10000 {
      NeverMet(t, passBps);
    } else {
      AtMostScaled(x, passBps, 10000);
    }
  }

  /** More no power never makes a proposal pass once the quorum is met. */
  lemma NoNeverHelps(t: Tally, x: nat, totalPower: nat, quorumBps: nat, passBps: nat, slashBps: nat)
    requires t.MeetsQuorum(totalPower, quorumBps)
    requires t.Outcome(totalPower, quorumBps, passBps, slashBps) != Pass
    ensures t.Add(No, x).Outcome(totalPower, quorumBps, passBps, slashBps) != Pass
  {
    hide Tally.Slashed, Tally.Passes;
    var u := t.Add(No, x);
    SlashedMeans(t, slashBps);
    SlashedMeans(u, slashBps);
    Grows(t.Total(), x, slashBps);
    if slashBps > 10000 {
      NeverMet(t, slashBps);
    } else {
      AtMostScaled(x, slashBps, 10000);
    }
    PassesMeans(t, passBps);
    PassesMeans(u, passBps);
    Grows(t.yes + t.no, x, passBps);
    if x > 0 && passBps > 0 {
      AtMostScaled(x, 1, passBps);
    }
  }

  lemma Needed(y: nat, total: nat)
    ensures total * 10000 >= y <==> total >= (y + 9999) / 10000
  {
  }

  lemma ShortfallMeets(t: Tally, x: nat, totalPower: nat, quorumBps: nat)
    ensures t.Add(No, x).MeetsQuorum(totalPower, quorumBps) <==> totalPower != 0 && x >= t.Shortfall(totalPower, quorumBps)
  {
    Needed(totalPower * quorumBps, t.Total() + x);
  }

  /** When more no power can make a proposal pass: exactly when it passes with just the power that the quorum lacks added as
      no. Once the quorum is met that power is 0, so no votes never help. */
  lemma NoHelpsExactly(t: Tally, totalPower: nat, quorumBps: nat, passBps: nat, slashBps: nat)
    ensures (exists x: nat :: t.Add(No, x).Outcome(totalPower, quorumBps, passBps, slashBps) == Pass) <==>
      var u := t.Add(No, t.Shortfall(totalPower, quorumBps));
      totalPower > 0 && !u.Slashed(slashBps) && u.Passes(passBps)
    ensures t.MeetsQuorum(totalPower, quorumBps) ==> t.Shortfall(totalPower, quorumBps) == 0
  {
    hide Tally.Slashed, Tally.Passes, Tally.MeetsQuorum, Tally.Shortfall;
    var lacking := t.Shortfall(totalPower, quorumBps);
    var u := t.Add(No, lacking);
    ShortfallMeets(t, lacking, totalPower, quorumBps);
    ShortfallMeets(t, 0, totalPower, quorumBps);
    assert t.Add(No, 0) == t;
    if x: nat :| t.Add(No, x).Outcome(totalPower, quorumBps, passBps, slashBps) == Pass {
      ShortfallMeets(t, x, totalPower, quorumBps);
      assert u.Add(No, x - lacking) == t.Add(No, x);
      if u.Outcome(totalPower, quorumBps, passBps, slashBps) != Pass {
        NoNeverHelps(u, x - lacking, totalPower, quorumBps, passBps, slashBps);
      }
    }
  }

  /** An instance: 10 of 100 voting no turn 40 yes votes from failed into passed. */
  lemma NoMakesQuorum()
    ensures var t := Tally(40, 0, 0);
      t.Outcome(100, 5000, 6700, 8000) == Fail && t.Add(No, 10).Outcome(100, 5000, 6700, 8000) == Pass
  {
  }
}
