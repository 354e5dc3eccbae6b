/** The guess-limited vault (`crates/ghettobox-vault-guest/lib.rs`): shares behind an unlock tag, in packed byte records. */
module Vault {
  import opened Wrappers
  import opened Bytes

  type bytes = seq<byte>

  const OK: word := 0
  const ERR_ALREADY_REGISTERED: word := 1
  const ERR_NOT_FOUND: word := 2
  const ERR_LOCKED_OUT: word := 3
  const ERR_WRONG_PIN: word := 4
  const ERR_CRYPTO: word := 5

  /** The host calls: sealing, signing and the index of this node. */
  datatype Host = Host(seal: bytes -> bytes, unseal: bytes -> bytes, sign: bytes -> bytes, index: byte) {
    function Seal(b: bytes): bytes { seal(b) }

    /** The host reports failure as an empty result. */
    function Unseal(b: bytes): Option<bytes> {
      if unseal(b) == [] then None else Some(unseal(b))
    }
  }

  type Store = map<bytes, bytes>

  /** `db_get`: the host reports a missing value as an empty one. */
  function DbGet(store: Store, key: bytes): Option<bytes> {
    if key in store && store[key] != [] then Some(store[key]) else None
  }

  // ----- packed records -----

  datatype Record = Record(tag: bytes, allowed: word, attempted: word, sealed: bytes)

  function Pack(r: Record): bytes {
    r.tag + BytesOf(r.allowed) + BytesOf(r.attempted) + r.sealed
  }

  function Unpack(data: bytes): Option<Record> {
    if |data| < 24 then None
    else Some(Record(data[..16], WordOf(data[16..20]), WordOf(data[20..24]), data[24..]))
  }

  lemma UnpackPack(r: Record)
    requires |r.tag| == 16
    ensures Unpack(Pack(r)) == Some(r) && Pack(r) != []
  {
    var d := Pack(r);
    assert d[..16] == r.tag && d[16..20] == BytesOf(r.allowed) && d[20..24] == BytesOf(r.attempted) && d[24..] == r.sealed;
    WordRoundTrip(r.allowed);
    WordRoundTrip(r.attempted);
  }

  lemma PackUnpack(data: bytes)
    requires |data| >= 24
    ensures Unpack(data).Some? && Pack(Unpack(data).value) == data
  {
    BytesRoundTrip(data[16..20]);
    BytesRoundTrip(data[20..24]);
    assert data == data[..16] + data[16..20] + data[20..24] + data[24..];
  }

  // ----- the operations on values -----

  /** The length returned to the host and the bytes written to its buffer. */
  datatype Reply = Reply(length: nat, output: bytes)

  function Short(code: word): Reply {
    Reply(4, BytesOf(code))
  }

  function Long(code: word, remaining: word): Reply {
    Reply(8, BytesOf(code) + BytesOf(remaining))
  }

  predicate Complete(input: bytes) {
    |input| >= 56 && |input| >= 56 + WordOf(input[52..56])
  }

  function ShareIn(input: bytes): bytes
    requires Complete(input)
  {
    input[56..56 + WordOf(input[52..56])]
  }

  /** `allowed_guesses.min(10)` */
  function Limit(input: bytes): word
    requires Complete(input)
  {
    var allowed := WordOf(input[48..52]);
    if allowed < 10 then allowed else 10
  }

  function Registered(host: Host, store: Store, input: bytes): (Store, Reply) {
    if !Complete(input) then (store, Reply(ERR_CRYPTO, []))
    else if DbGet(store, input[..32]).Some? then (store, Reply(ERR_ALREADY_REGISTERED, []))
    else
      (store[input[..32] := Pack(Record(input[32..48], Limit(input), 0, host.Seal(ShareIn(input))))],
       Reply(69, BytesOf(OK) + [host.index] + host.sign(input[..48])))
  }

  function Recovered(host: Host, store: Store, input: bytes): (Store, Reply) {
    if |input| < 48 then (store, Reply(0, []))
    else
      var user, data := input[..32], DbGet(store, input[..32]);
      if data.None? then (store, Short(ERR_NOT_FOUND))
      else
        var entry := Unpack(data.value);
        if entry.None? then (store, Short(ERR_CRYPTO))
        else
          var r := entry.value;
          if r.attempted >= r.allowed then (store - {user}, Long(ERR_LOCKED_OUT, 0))
          else if input[32..48] != r.tag then
            (store[user := Pack(r.(attempted := r.attempted + 1))], Long(ERR_WRONG_PIN, r.allowed - r.attempted - 1))
          else
            var share := host.Unseal(r.sealed);
            if share.None? then (store, Short(ERR_CRYPTO))
            else (store, Released(host, r.allowed - r.attempted, share.value))
  }

  function Released(host: Host, remaining: word, share: bytes): Reply {
    Reply(13 + |share|, BytesOf(OK) + BytesOf(remaining) + BytesOf(|share| % 0x1_0000_0000) + [host.index] + share)
  }

  function Status(store: Store, user: bytes): Reply {
    var data := DbGet(store, user);
    if data.None? || Unpack(data.value).None? then Reply(6, [0] + BytesOf(0) + [0])
    else
      var r := Unpack(data.value).value;
      Reply(6, [1] + BytesOf(if r.allowed >= r.attempted then r.allowed - r.attempted else 0) + [if r.attempted >= r.allowed then 1 else 0])
  }

  // ----- the vault -----

  class Guest {
    const host: Host
    var store: Store

    constructor (host: Host)
      ensures this.host == host && store == map[]
    {
      this.host, store := host, map[];
    }

    method Register(input: bytes) returns (r: Reply)
      modifies this
      ensures (store, r) == Registered(host, old(store), input)
    {
      if |input| < 56 {
        return Reply(ERR_CRYPTO, []);
      }
      var user, tag := input[..32], input[32..48];
      var allowed := WordOf(input[48..52]);
      var shareLen: nat := WordOf(input[52..56]);
      if |input| < 56 + shareLen {
        return Reply(ERR_CRYPTO, []);
      }
      var share := input[56..56 + shareLen];
      if DbGet(store, user).Some? {
        return Reply(ERR_ALREADY_REGISTERED, []);
      }
      var sealed := host.Seal(share);
      store := store[user := Pack(Record(tag, if allowed < 10 then allowed else 10, 0, sealed))];
      assert user + tag == input[..48];
      return Reply(69, BytesOf(OK) + [host.index] + host.sign(user + tag));
    }

    method Recover(input: bytes) returns (r: Reply)
      modifies this
      ensures (store, r) == Recovered(host, old(store), input)
    {
      if |input| < 48 {
        return Reply(0, []);
      }
      var user, tag := input[..32], input[32..48];
      var data := DbGet(store, user);
      if data.None? {
        return Reply(4, BytesOf(ERR_NOT_FOUND));
      }
      var entry := Unpack(data.value);
      if entry.None? {
        return Reply(4, BytesOf(ERR_CRYPTO));
      }
      var Record(stored, allowed, attempted, sealed) := entry.value;
      if attempted >= allowed {
        store := store - {user};
        return Reply(8, BytesOf(ERR_LOCKED_OUT) + BytesOf(0));
      }
      if tag != stored {
        var tried := attempted + 1;
        store := store[user := Pack(Record(stored, allowed, tried, sealed))];
        var remaining := if allowed >= tried then allowed - tried else 0;
        return Reply(8, BytesOf(ERR_WRONG_PIN) + BytesOf(remaining));
      }
      var share := host.Unseal(sealed);
      if share.None? {
        return Reply(4, BytesOf(ERR_CRYPTO));
      }
      return Released(host, allowed - attempted, share.value);
    }
  }

  // ----- runs -----

  datatype Op = Register(input: bytes) | Recover(input: bytes) | Query(user: bytes)

  function Answer(host: Host, store: Store, op: Op): (Store, Reply) {
    match op
    case Register(input) => Registered(host, store, input)
    case Recover(input) => Recovered(host, store, input)
    case Query(user) => (store, Status(store, user))
  }

  function Run(host: Host, store: Store, ops: seq<Op>): Store
    decreases |ops|
  {
    if ops == [] then store else Run(host, Answer(host, store, ops[0]).0, ops[1..])
  }

  /** An attempt to recover the share of `user`. */
  predicate Attempt(op: Op, user: bytes) {
    op.Recover? && |op.input| >= 48 && op.input[..32] == user
  }

  predicate SaysWrong(host: Host, store: Store, op: Op, user: bytes) {
    Attempt(op, user) && var out := Answer(host, store, op).1.output; |out| >= 4 && out[..4] == BytesOf(ERR_WRONG_PIN)
  }

  predicate SaysLocked(host: Host, store: Store, op: Op, user: bytes) {
    Attempt(op, user) && var out := Answer(host, store, op).1.output; |out| >= 4 && out[..4] == BytesOf(ERR_LOCKED_OUT)
  }

  predicate SaysShare(host: Host, store: Store, op: Op, user: bytes) {
    Attempt(op, user) && var out := Answer(host, store, op).1.output; |out| >= 4 && out[..4] == BytesOf(OK)
  }

  /** How many wrong tags a run answers for `user`. */
  function Wrong(host: Host, store: Store, ops: seq<Op>, user: bytes): nat
    decreases |ops|
  {
    if ops == [] then 0
    else (if SaysWrong(host, store, ops[0], user) then 1 else 0) + Wrong(host, Answer(host, store, ops[0]).0, ops[1..], user)
  }

  /** No answer of the run reports a lock-out of `user`; a lock-out is the only way a record is deleted. */
  predicate Alive(host: Host, store: Store, ops: seq<Op>, user: bytes)
    decreases |ops|
  {
    ops == [] || (!SaysLocked(host, store, ops[0], user) && Alive(host, Answer(host, store, ops[0]).0, ops[1..], user))
  }

  /** The store holds this record for `user`. */
  predicate Holds(store: Store, user: bytes, r: Record) {
    |r.tag| == 16 && user in store && store[user] == Pack(r)
  }

  lemma CodesDiffer()
    ensures BytesOf(OK) != BytesOf(ERR_WRONG_PIN) && BytesOf(OK) != BytesOf(ERR_LOCKED_OUT)
    ensures BytesOf(ERR_WRONG_PIN) != BytesOf(ERR_LOCKED_OUT)
    ensures BytesOf(ERR_NOT_FOUND) != BytesOf(OK) && BytesOf(ERR_CRYPTO) != BytesOf(OK)
    ensures BytesOf(ERR_CRYPTO) != BytesOf(ERR_WRONG_PIN) && BytesOf(ERR_CRYPTO) != BytesOf(ERR_LOCKED_OUT)
    ensures BytesOf(ERR_NOT_FOUND) != BytesOf(ERR_WRONG_PIN) && BytesOf(ERR_NOT_FOUND) != BytesOf(ERR_LOCKED_OUT)
  {
  }

  /** What one answer does to the record of `user`: only a wrong tag changes it, only a lock-out removes it, and the
      share is released exactly to the stored tag before the limit. */
  lemma OneAnswer(host: Host, store: Store, op: Op, user: bytes, r: Record)
    requires |user| == 32 && Holds(store, user, r)
    ensures var next := Answer(host, store, op).0;
      && (SaysLocked(host, store, op, user) <==> Attempt(op, user) && r.attempted >= r.allowed)
      && (SaysWrong(host, store, op, user) <==> Attempt(op, user) && r.attempted < r.allowed && op.input[32..48] != r.tag)
      && (SaysLocked(host, store, op, user) ==> user !in next)
      && (SaysWrong(host, store, op, user) ==> Holds(next, user, r.(attempted := r.attempted + 1)))
      && (!SaysLocked(host, store, op, user) && !SaysWrong(host, store, op, user) ==> Holds(next, user, r))
    ensures SaysShare(host, store, op, user) <==>
      Attempt(op, user) && r.attempted < r.allowed && op.input[32..48] == r.tag && host.Unseal(r.sealed).Some?
  {
    hide BytesOf, WordOf, Pack, Unpack;
    UnpackPack(r);
    CodesDiffer();
  }

  /** As long as nobody is locked out, the packed record counts the wrong answers exactly, and never past the limit. */
  lemma {:induction false} RecordCounts(host: Host, store: Store, ops: seq<Op>, user: bytes, r: Record)
    requires |user| == 32 && Holds(store, user, r) && r.attempted <= r.allowed && Alive(host, store, ops, user)
    ensures var n := Wrong(host, store, ops, user);
      r.attempted + n <= r.allowed && Holds(Run(host, store, ops), user, r.(attempted := r.attempted + n))
    decreases |ops|
  {
    hide Answer, Holds, SaysWrong, SaysLocked;
    if ops != [] {
      var op, next := ops[0], Answer(host, store, ops[0]).0;
      OneAnswer(host, store, op, user, r);
      RecordCounts(host, next, ops[1..], user, if SaysWrong(host, store, op, user) then r.(attempted := r.attempted + 1) else r);
    }
  }

  lemma RegisterHolds(host: Host, store: Store, input: bytes)
    requires Complete(input) && DbGet(store, input[..32]).None?
    ensures Holds(Registered(host, store, input).0, input[..32], Record(input[32..48], Limit(input), 0, host.Seal(ShareIn(input))))
  {
  }

  /** The record of a registered user after any run without a lock-out. */
  lemma AfterRun(host: Host, store: Store, input: bytes, ops: seq<Op>, op: Op) returns (r: Record)
    requires Complete(input) && DbGet(store, input[..32]).None?
    requires Alive(host, Registered(host, store, input).0, ops, input[..32])
    ensures var user, start := input[..32], Registered(host, store, input).0;
      var wrong, end := Wrong(host, start, ops, user), Run(host, start, ops);
      && wrong <= Limit(input) && r == Record(input[32..48], Limit(input), wrong, host.Seal(ShareIn(input))) && Holds(end, user, r)
      && (SaysLocked(host, end, op, user) <==> Attempt(op, user) && wrong >= Limit(input))
      && (SaysWrong(host, end, op, user) <==> Attempt(op, user) && wrong < Limit(input) && op.input[32..48] != input[32..48])
      && (SaysShare(host, end, op, user) <==>
            Attempt(op, user) && wrong < Limit(input) && op.input[32..48] == input[32..48] && host.Unseal(host.Seal(ShareIn(input))).Some?)
  {
    hide Registered, Run, Wrong, Alive, Pack, Unpack, SaysWrong, SaysLocked, SaysShare, BytesOf, Answer;
    var user, start := input[..32], Registered(host, store, input).0;
    RegisterHolds(host, store, input);
    RecordCounts(host, start, ops, user, Record(input[32..48], Limit(input), 0, host.Seal(ShareIn(input))));
    r := Record(input[32..48], Limit(input), Wrong(host, start, ops, user), host.Seal(ShareIn(input)));
    OneAnswer(host, Run(host, start, ops), op, user, r);
  }

  /** From a registration until the record is deleted, whatever anybody asks: at most min(allowed, 10) wrong tags are
      answered, `status` reports exactly what is left, and the next attempt is answered with the share exactly when its tag
      is the registered one and attempts remain. */
  lemma GuessLimit(host: Host, store: Store, input: bytes, ops: seq<Op>, op: Op)
    requires Complete(input) && DbGet(store, input[..32]).None?
    requires Alive(host, Registered(host, store, input).0, ops, input[..32])
    ensures var user, start := input[..32], Registered(host, store, input).0;
      var wrong, end := Wrong(host, start, ops, user), Run(host, start, ops);
      && wrong <= Limit(input) <= 10
      && Status(end, user) == Reply(6, [1] + BytesOf(Limit(input) - wrong) + [if wrong == Limit(input) then 1 else 0])
      && (SaysWrong(host, end, op, user) <==> Attempt(op, user) && wrong < Limit(input) && op.input[32..48] != input[32..48])
      && (SaysLocked(host, end, op, user) <==> Attempt(op, user) && wrong == Limit(input))
      && (SaysShare(host, end, op, user) <==>
            Attempt(op, user) && wrong < Limit(input) && op.input[32..48] == input[32..48] && host.Unseal(host.Seal(ShareIn(input))).Some?)
  {
    hide Registered, Answer, Run, Wrong, Alive, Pack, Unpack, SaysWrong, SaysLocked, SaysShare, BytesOf;
    var r := AfterRun(host, store, input, ops, op);
    UnpackPack(r);
  }

  lemma ReadReleased(host: Host, remaining: word, share: bytes)
    requires |share| < 0x1_0000_0000
    ensures var r := Released(host, remaining, share);
      && r.length == |r.output| == 13 + |share| && r.output[..4] == BytesOf(OK) && WordOf(r.output[4..8]) == remaining
      && WordOf(r.output[8..12]) == |share| && r.output[12] == host.index && r.output[13..] == share
  {
    hide BytesOf, WordOf;
    WordRoundTrip(remaining);
    WordRoundTrip(|share|);
    var out := Released(host, remaining, share).output;
    assert out[..4] == BytesOf(OK) && out[4..8] == BytesOf(remaining) && out[8..12] == BytesOf(|share|) && out[13..] == share;
  }

  lemma ReadLong(code: word, remaining: word)
    ensures var r := Long(code, remaining); r.length == |r.output| == 8 && r.output[..4] == BytesOf(code) && WordOf(r.output[4..8]) == remaining
  {
    hide BytesOf, WordOf;
    WordRoundTrip(remaining);
    assert Long(code, remaining).output[4..8] == BytesOf(remaining);
  }

  lemma ShareFits(input: bytes)
    requires Complete(input)
    ensures |ShareIn(input)| == WordOf(input[52..56]) < 0x1_0000_0000
  {
  }

  /** The answer to an attempt on a user with record r. */
  lemma AnswerBytes(host: Host, store: Store, op: Op, user: bytes, r: Record)
    requires |user| == 32 && Holds(store, user, r) && Attempt(op, user)
    ensures r.attempted >= r.allowed ==> Answer(host, store, op) == (store - {user}, Long(ERR_LOCKED_OUT, 0))
    ensures r.attempted < r.allowed && op.input[32..48] != r.tag ==>
      Answer(host, store, op).1 == Long(ERR_WRONG_PIN, r.allowed - r.attempted - 1)
    ensures r.attempted < r.allowed && op.input[32..48] == r.tag ==>
      Answer(host, store, op) ==
        (store, if host.Unseal(r.sealed).Some? then Released(host, r.allowed - r.attempted, host.Unseal(r.sealed).value) else Short(ERR_CRYPTO))
  {
    hide BytesOf, WordOf, Pack, Unpack, Released, Long, Short;
    UnpackPack(r);
  }

  /** What is in the replies to an attempt after a registration, byte by byte: a released share is the registered one with its
      length, the node and the exact number of attempts left, a wrong tag is told how many attempts are left after it. An empty
      share is never released, because the host reports failure as an empty result. */
  lemma ReleasedShare(host: Host, store: Store, input: bytes, ops: seq<Op>, op: Op)
    requires Complete(input) && DbGet(store, input[..32]).None?
    requires Alive(host, Registered(host, store, input).0, ops, input[..32])
    requires host.unseal(host.Seal(ShareIn(input))) == ShareIn(input)
    ensures var user, start := input[..32], Registered(host, store, input).0;
      var wrong, end := Wrong(host, start, ops, user), Run(host, start, ops);
      var rep := Answer(host, end, op).1;
      && (SaysShare(host, end, op, user) ==>
            && Answer(host, end, op).0 == end && rep.length == |rep.output| == 13 + |ShareIn(input)|
            && WordOf(rep.output[4..8]) == Limit(input) - wrong > 0 && WordOf(rep.output[8..12]) == |ShareIn(input)|
            && rep.output[12] == host.index && rep.output[13..] == ShareIn(input))
      && (SaysWrong(host, end, op, user) ==> rep.length == |rep.output| == 8 && WordOf(rep.output[4..8]) == Limit(input) - wrong - 1)
      && (SaysLocked(host, end, op, user) ==> rep.length == |rep.output| == 8 && WordOf(rep.output[4..8]) == 0)
      && (ShareIn(input) == [] ==> !SaysShare(host, end, op, user))
  {
    hide Registered, Run, Wrong, Alive, Pack, Unpack, SaysWrong, SaysLocked, SaysShare, BytesOf, WordOf, Released, Long, Answer, Limit, ShareIn;
    var user, start := input[..32], Registered(host, store, input).0;
    var wrong, end := Wrong(host, start, ops, user), Run(host, start, ops);
    var r := AfterRun(host, store, input, ops, op);
    ShareFits(input);
    if Attempt(op, user) {
      AnswerBytes(host, end, op, user, r);
      if wrong < Limit(input) {
        ReadReleased(host, Limit(input) - wrong, ShareIn(input));
        ReadLong(ERR_WRONG_PIN, Limit(input) - wrong - 1);
      }
      ReadLong(ERR_LOCKED_OUT, 0);
    } else {
      NoAttempt(host, end, op, user);
    }
  }

  lemma NoAttempt(host: Host, store: Store, op: Op, user: bytes)
    requires !Attempt(op, user)
    ensures !SaysShare(host, store, op, user) && !SaysWrong(host, store, op, user) && !SaysLocked(host, store, op, user)
  {
  }

  // ----- on the wire -----

  /** The documented message: user_id(32) || unlock_tag(16) || allowed_guesses(4) || share_len(4) || share. */
  function Message(user: bytes, tag: bytes, allowed: word, share: bytes): bytes
    requires |share| < 0x1_0000_0000
  {
    user + tag + BytesOf(allowed) + BytesOf(|share|) + share
  }

  lemma MessageReads(user: bytes, tag: bytes, allowed: word, share: bytes, extra: bytes)
    requires |user| == 32 && |tag| == 16 && |share| < 0x1_0000_0000
    ensures var input := Message(user, tag, allowed, share) + extra;
      && Complete(input) && input[..32] == user && input[32..48] == tag && input[..48] == user + tag && ShareIn(input) == share
      && Limit(input) == if allowed < 10 then allowed else 10
  {
    hide BytesOf, WordOf;
    var input := Message(user, tag, allowed, share) + extra;
    WordRoundTrip(allowed);
    WordRoundTrip(|share|);
    assert input[48..52] == BytesOf(allowed) && input[52..56] == BytesOf(|share|);
    assert input[..32] == user && input[32..48] == tag && input[..48] == user + tag && input[56..56 + |share|] == share;
  }

  /** The whole vault on the wire, for a host that unseals what it sealed. A first registration is acknowledged with the node and
      the signature of user and tag. After it, whatever anybody asked, as long as the record is there, at most min(allowed, 10)
      wrong tags were answered and the next attempt gets exactly these bytes. */
  lemma WireProtocol(host: Host, store: Store, user: bytes, tag: bytes, allowed: word, share: bytes, extra: bytes,
                     ops: seq<Op>, tag': bytes, extra': bytes)
    requires |user| == 32 && |tag| == 16 && |tag'| == 16 && |share| < 0x1_0000_0000
    requires (user in store ==> store[user] == []) && host.unseal(host.Seal(share)) == share
    requires Alive(host, Registered(host, store, Message(user, tag, allowed, share) + extra).0, ops, user)
    ensures var (start, reply) := Registered(host, store, Message(user, tag, allowed, share) + extra);
      var limit, wrong, end := if allowed < 10 then allowed else 10, Wrong(host, start, ops, user), Run(host, start, ops);
      && reply == Reply(69, [0, 0, 0, 0] + [host.index] + host.sign(user + tag))
      && wrong <= limit
      && Answer(host, end, Recover(user + tag' + extra')).1 ==
        if wrong == limit then Reply(8, [3, 0, 0, 0] + [0, 0, 0, 0])
        else if tag' != tag then Reply(8, [4, 0, 0, 0] + BytesOf(limit - wrong - 1))
        else if share == [] then Reply(4, [5, 0, 0, 0])
        else Reply(13 + |share|, [0, 0, 0, 0] + BytesOf(limit - wrong) + BytesOf(|share|) + [host.index] + share)
  {
    hide Registered, Run, Wrong, Alive, Pack, Unpack, SaysWrong, SaysLocked, SaysShare, BytesOf, WordOf, Answer, Limit, ShareIn, Complete, Message;
    var input, op := Message(user, tag, allowed, share) + extra, Recover(user + tag' + extra');
    MessageReads(user, tag, allowed, share, extra);
    assert op.input[..32] == user && op.input[32..48] == tag';
    Codes();
    RegisterReply(host, store, input);
    var r := AfterRun(host, store, input, ops, op);
    AnswerBytes(host, Run(host, Registered(host, store, input).0, ops), op, user, r);
  }

  lemma Codes()
    ensures BytesOf(OK) == [0, 0, 0, 0] && BytesOf(0) == [0, 0, 0, 0] && BytesOf(ERR_NOT_FOUND) == [2, 0, 0, 0]
    ensures BytesOf(ERR_LOCKED_OUT) == [3, 0, 0, 0] && BytesOf(ERR_WRONG_PIN) == [4, 0, 0, 0] && BytesOf(ERR_CRYPTO) == [5, 0, 0, 0]
  {
  }

  lemma RegisterReply(host: Host, store: Store, input: bytes)
    requires Complete(input) && DbGet(store, input[..32]).None?
    ensures Registered(host, store, input).1 == Reply(69, [0, 0, 0, 0] + [host.index] + host.sign(input[..48]))
  {
    Codes();
  }

  /** What is refused, and that nothing changes then. */
  lemma Refusals(host: Host, store: Store, input: bytes)
    ensures |input| < 56 || |input| < 56 + WordOf(input[52..56]) ==> Registered(host, store, input) == (store, Reply(5, []))
    ensures |input| >= 56 && |input| >= 56 + WordOf(input[52..56]) && input[..32] in store && store[input[..32]] != [] ==>
      Registered(host, store, input) == (store, Reply(1, []))
    ensures |input| < 48 ==> Recovered(host, store, input) == (store, Reply(0, []))
    ensures |input| >= 48 && (input[..32] in store ==> store[input[..32]] == []) ==>
      Recovered(host, store, input) == (store, Reply(4, [2, 0, 0, 0]))
    ensures |input| >= 48 && input[..32] in store && 0 < |store[input[..32]]| < 24 ==>
      Recovered(host, store, input) == (store, Reply(4, [5, 0, 0, 0]))
    ensures |input| >= 32 && (input[..32] in store ==> |store[input[..32]]| < 24) ==>
      Status(store, input[..32]) == Reply(6, [0, 0, 0, 0, 0, 0])
  {
    hide WordOf;
    Codes();
  }

  /** No registration of `user` in the run. */
  predicate NoRegistration(ops: seq<Op>, user: bytes) {
    forall i :: 0 <= i < |ops| && ops[i].Register? && |ops[i].input| >= 32 ==> ops[i].input[..32] != user
  }

  /** After a lock-out the share is gone: until a new registration every attempt is told that nothing is there. */
  lemma {:induction false} GoneStaysGone(host: Host, store: Store, ops: seq<Op>, user: bytes, op: Op)
    requires user !in store && NoRegistration(ops, user) && Attempt(op, user)
    ensures Answer(host, Run(host, store, ops), op).1 == Short(ERR_NOT_FOUND)
    decreases |ops|
  {
    if ops != [] {
      GoneStaysGone(host, Answer(host, store, ops[0]).0, ops[1..], user, op);
    }
  }
}
