/** Responses with DLEQ proofs and misbehaviour reports (`crates/ghettobox/src/zoda_oprf.rs`). */
module VerifiedOprf {
  import opened Wrappers
  import opened Fields
  import opened Polynomials
  import opened Oprf

  /** `VerifiedOprfResponse` */
  datatype Response<S, E> = Response(serverIndex: nat, point: E, proof: Dleq<S>)

  datatype Misbehavior = InvalidProof | MalformedResponse | WrongServerIndex

  datatype Report<S, E> = Report(
    timestamp: nat, serverIndex: nat, expectedPublicKey: E, blindedPoint: E, response: Response<S, E>, kind: Misbehavior)

  datatype Checked<S, E> = Good(point: E) | Bad(report: Report<S, E>)

  /** The client, the public keys on record, the all-zero encoding and the clock. */
  datatype Verifier<P, S, E> = Verifier(client: Client<P, S>, publicKeys: seq<(nat, E)>, blank: E, now: nat)

  /** The first public key on record for a server. */
  function FindKey<E>(keys: seq<(nat, E)>, index: nat): Option<E> {
    if keys == [] then None else if keys[0].0 == index then Some(keys[0].1) else FindKey(keys[1..], index)
  }

  predicate Listed<E>(keys: seq<(nat, E)>, index: nat) {
    exists i :: 0 <= i < |keys| && keys[i].0 == index
  }

  /** The key of the first entry with the index. */
  ghost predicate OnRecord<E>(keys: seq<(nat, E)>, index: nat, key: E) {
    exists i :: 0 <= i < |keys| && keys[i] == (index, key) && forall j :: 0 <= j < i ==> keys[j].0 != index
  }

  /** The search finds exactly the key on record, and nothing exactly when no entry has the index. */
  lemma {:induction false} KeyFound<E(!new)>(keys: seq<(nat, E)>, index: nat)
    ensures forall key :: FindKey(keys, index) == Some(key) <==> OnRecord(keys, index, key)
    ensures FindKey(keys, index).None? <==> !Listed(keys, index)
  {
    if keys != [] {
      var rest := keys[1..];
      KeyFound(rest, index);
      forall key ensures FindKey(keys, index) == Some(key) <==> OnRecord(keys, index, key) {
        RecordStep(keys, index, key);
      }
      assert forall i :: 0 < i < |keys| ==> keys[i] == rest[i - 1];
    }
  }

  lemma RecordStep<E>(keys: seq<(nat, E)>, index: nat, key: E)
    requires keys != []
    ensures OnRecord(keys, index, key) <==> if keys[0].0 == index then keys[0].1 == key else OnRecord(keys[1..], index, key)
  {
    var rest := keys[1..];
    if keys[0].0 != index && OnRecord(rest, index, key) {
      var i :| 0 <= i < |rest| && rest[i] == (index, key) && forall j :: 0 <= j < i ==> rest[j].0 != index;
      assert keys[i + 1] == (index, key) && forall j :: 0 < j < i + 1 ==> keys[j] == rest[j - 1];
    }
    if keys[0].0 != index && OnRecord(keys, index, key) {
      var i :| 0 <= i < |keys| && keys[i] == (index, key) && forall j :: 0 <= j < i ==> keys[j].0 != index;
      assert rest[i - 1] == (index, key) && forall j :: 0 <= j < i - 1 ==> rest[j] == keys[j + 1];
    }
    if keys[0] == (index, key) {
      assert OnRecord(keys, index, key);
    }
  }

  /** With one entry per server every entry is on record. */
  lemma EntryOnRecord<E>(keys: seq<(nat, E)>, index: nat, key: E)
    requires DistinctServers(keys) && (index, key) in keys
    ensures OnRecord(keys, index, key)
  {
    var i :| 0 <= i < |keys| && keys[i] == (index, key);
  }

  /** `verify_response_with_report` */
  function Check<P, S(==), E, I, K>(G: Group<P, S, E, I, K>, v: Verifier<P, S, E>, resp: Response<S, E>): Checked<S, E> {
    var blindedBytes := G.Compress(v.client.blinded);
    match FindKey(v.publicKeys, resp.serverIndex)
    case None => Bad(Report(v.now, resp.serverIndex, v.blank, blindedBytes, resp, WrongServerIndex))
    case Some(key) =>
      var malformed := Bad(Report(v.now, resp.serverIndex, key, blindedBytes, resp, MalformedResponse));
      match G.Decompress(resp.point)
      case None => malformed
      case Some(point) =>
        match G.Decompress(blindedBytes)
        case None => malformed
        case Some(blinded) =>
          match G.Decompress(key)
          case None => malformed
          case Some(publicKey) =>
            if !VerifyDleq(G, resp.proof, blinded, point, publicKey) then
              Bad(Report(v.now, resp.serverIndex, key, blindedBytes, resp, InvalidProof))
            else Good(resp.point)
  }

  /** `MisbehaviorReport::verify` */
  predicate VerifyReport<P, S(==), E, I, K>(G: Group<P, S, E, I, K>, report: Report<S, E>) {
    match G.Decompress(report.blindedPoint)
    case None => false
    case Some(blinded) =>
      match G.Decompress(report.response.point)
      case None => report.kind == MalformedResponse
      case Some(point) =>
        match G.Decompress(report.expectedPublicKey)
        case None => false
        case Some(publicKey) =>
          match report.kind
          case InvalidProof => !VerifyDleq(G, report.response.proof, blinded, point, publicKey)
          case MalformedResponse => true
          case WrongServerIndex => report.response.serverIndex != report.serverIndex
  }

  /** The first check that fails names the report, and the report carries the evidence: the time, the request, the response and
      the key on record. */
  lemma ReportSays<P(!new), S(!new), E(!new), I, K>(F: Field<S>, G: Group<P, S, E, I, K>, v: Verifier<P, S, E>, resp: Response<S, E>)
    requires IsGroup(F, G) && Check(G, v, resp).Bad?
    ensures var report := Check(G, v, resp).report;
      && report.timestamp == v.now && report.serverIndex == resp.serverIndex && report.response == resp
      && report.blindedPoint == G.Compress(v.client.blinded)
      && (report.kind == WrongServerIndex <==> !Listed(v.publicKeys, resp.serverIndex))
      && (report.kind == WrongServerIndex ==> report.expectedPublicKey == v.blank)
      && (report.kind != WrongServerIndex ==> OnRecord(v.publicKeys, resp.serverIndex, report.expectedPublicKey))
      && (report.kind == InvalidProof ==> G.Decompress(resp.point).Some? && G.Decompress(report.expectedPublicKey).Some?)
      && (report.kind == MalformedResponse ==> G.Decompress(resp.point).None? || G.Decompress(report.expectedPublicKey).None?)
  {
    hide IsGroup;
    Readable(F, G, v.client.blinded);
    KeyFound(v.publicKeys, resp.serverIndex);
  }

  /** A report convinces a third party exactly when the server had a public key on record and either its point does
      not decode or that key does. */
  lemma ReportConvinces<P(!new), S(!new), E(!new), I, K>(F: Field<S>, G: Group<P, S, E, I, K>, v: Verifier<P, S, E>, resp: Response<S, E>)
    requires IsGroup(F, G) && Check(G, v, resp).Bad?
    ensures VerifyReport(G, Check(G, v, resp).report) <==>
      exists key :: OnRecord(v.publicKeys, resp.serverIndex, key) && (G.Decompress(resp.point).None? || G.Decompress(key).Some?)
  {
    hide IsGroup;
    Readable(F, G, v.client.blinded);
    KeyFound(v.publicKeys, resp.serverIndex);
  }

  /** The report is about this client's request and about the key on record for the server that answered. */
  ghost predicate About<P, S, E, I, K>(G: Group<P, S, E, I, K>, v: Verifier<P, S, E>, report: Report<S, E>) {
    && report.blindedPoint == G.Compress(v.client.blinded)
    && OnRecord(v.publicKeys, report.response.serverIndex, report.expectedPublicKey)
  }

  /** A report of a bad proof that verifies, whoever made it, shows a response that fails the client's check. */
  lemma ReportedIsBad<P(!new), S(!new), E(!new), I, K>(F: Field<S>, G: Group<P, S, E, I, K>, v: Verifier<P, S, E>, report: Report<S, E>)
    requires IsGroup(F, G) && About(G, v, report) && VerifyReport(G, report) && report.kind == InvalidProof
    ensures Check(G, v, report.response).Bad?
  {
    hide IsGroup;
    Readable(F, G, v.client.blinded);
    KeyFound(v.publicKeys, report.response.serverIndex);
  }

  /** Verified evidence is sound for one kind of report only: if the client has any acceptable response, then every report
      of a kind that verifies shows a bad response exactly when the kind is a bad proof. */
  lemma EvidenceSound<P(!new), S(!new), E(!new), I, K>(
    F: Field<S>, G: Group<P, S, E, I, K>, v: Verifier<P, S, E>, good: Response<S, E>, kind: Misbehavior)
    requires IsGroup(F, G) && Check(G, v, good).Good?
    ensures (forall report: Report<S, E> :: report.kind == kind && About(G, v, report) && VerifyReport(G, report) ==> Check(G, v, report.response).Bad?)
      <==> kind == InvalidProof
  {
    hide IsGroup;
    Readable(F, G, v.client.blinded);
    if kind == InvalidProof {
      forall report: Report<S, E> | report.kind == kind && About(G, v, report) && VerifyReport(G, report) ensures Check(G, v, report.response).Bad? {
        ReportedIsBad(F, G, v, report);
      }
    } else {
      KeyFound(v.publicKeys, good.serverIndex);
      var key := FindKey(v.publicKeys, good.serverIndex).value;
      var report := Report(v.now, if good.serverIndex == 0 then 1 else 0, key, G.Compress(v.client.blinded), good, kind);
      assert About(G, v, report) && VerifyReport(G, report);
    }
  }

  lemma Readable<P(!new), S(!new), E(!new), I, K>(F: Field<S>, G: Group<P, S, E, I, K>, p: P)
    requires IsGroup(F, G)
    ensures G.Decompress(G.Compress(p)) == Some(p)
  {
  }

  /** The (index, point) pairs that pass, in order. */
  function Passing<P, S(==), E, I, K>(G: Group<P, S, E, I, K>, v: Verifier<P, S, E>, rs: seq<Response<S, E>>): seq<(nat, E)> {
    if rs == [] then []
    else
      var n := |rs| - 1;
      var c := Check(G, v, rs[n]);
      if c.Good? then Passing(G, v, rs[..n]) + [(rs[n].serverIndex, c.point)] else Passing(G, v, rs[..n])
  }

  /** The reports of the responses that fail, in order. */
  function Reports<P, S(==), E, I, K>(G: Group<P, S, E, I, K>, v: Verifier<P, S, E>, rs: seq<Response<S, E>>): seq<Report<S, E>> {
    if rs == [] then []
    else
      var n := |rs| - 1;
      var c := Check(G, v, rs[n]);
      if c.Bad? then Reports(G, v, rs[..n]) + [c.report] else Reports(G, v, rs[..n])
  }

  /** What `finalize_with_reports` answers. */
  function FinalizedWithReports<P, S(==), E, I, K>(
    F: Field<S>, G: Group<P, S, E, I, K>, v: Verifier<P, S, E>, rs: seq<Response<S, E>>, threshold: nat): Result<(K, seq<Report<S, E>>), Error>
  {
    match Finalized(F, G, v.client, Passing(G, v, rs), threshold)
    case Failure(e) => Failure(e)
    case Success(key) => Success((key, Reports(G, v, rs)))
  }

  /** `finalize_with_reports` */
  method FinalizeWithReports<P(!new), S(!new, ==), E, I, K>(
    F: Field<S>, G: Group<P, S, E, I, K>, v: Verifier<P, S, E>, rs: seq<Response<S, E>>, threshold: nat)
    returns (r: Result<(K, seq<Report<S, E>>), Error>)
    requires IsField(F)
    ensures r == FinalizedWithReports(F, G, v, rs, threshold)
  {
    hide Check, IsField;
    var verified: seq<(nat, E)>, reports: seq<Report<S, E>> := [], [];
    for i := 0 to |rs|
      invariant verified == Passing(G, v, rs[..i]) && reports == Reports(G, v, rs[..i])
    {
      assert rs[..i + 1][..i] == rs[..i];
      match Check(G, v, rs[i]) {
        case Good(point) => verified := verified + [(rs[i].serverIndex, point)];
        case Bad(report) => reports := reports + [report];
      }
    }
    assert rs[..|rs|] == rs;
    if |verified| < threshold {
      return Failure(NotEnoughShares(|verified|, threshold));
    }
    var key := Finalize(F, G, v.client, verified, threshold);
    match key {
      case Failure(e) => return Failure(e);
      case Success(k) => return Success((k, reports));
    }
  }

  lemma {:induction false} PassingConcat<P, S, E, I, K>(G: Group<P, S, E, I, K>, v: Verifier<P, S, E>, a: seq<Response<S, E>>, b: seq<Response<S, E>>)
    ensures Passing(G, v, a + b) == Passing(G, v, a) + Passing(G, v, b)
    ensures Reports(G, v, a + b) == Reports(G, v, a) + Reports(G, v, b)
    decreases |b|
  {
    hide Check;
    if b == [] {
      assert a + b == a;
    } else {
      var n := |b| - 1;
      assert (a + b)[..|a| + n] == a + b[..n];
      PassingConcat(G, v, a, b[..n]);
    }
  }

  lemma OneFailure<P, S, E, I, K>(G: Group<P, S, E, I, K>, v: Verifier<P, S, E>, bad: Response<S, E>)
    requires Check(G, v, bad).Bad?
    ensures Passing(G, v, [bad]) == [] && Reports(G, v, [bad]) == [Check(G, v, bad).report]
  {
    hide Check;
    var one := [bad];
    assert one[..0] == [] && one[0] == bad;
    assert Reports(G, v, one) == Reports(G, v, one[..0]) + [Check(G, v, bad).report];
    assert Reports(G, v, one[..0]) == [];
  }

  /** A failing response anywhere in the list changes neither the outcome nor the key, and adds its one report. */
  lemma FailingResponseIsHarmless<P, S, E, I, K>(
    F: Field<S>, G: Group<P, S, E, I, K>, v: Verifier<P, S, E>, a: seq<Response<S, E>>, bad: Response<S, E>, b: seq<Response<S, E>>, threshold: nat)
    requires Check(G, v, bad).Bad?
    ensures Passing(G, v, a + [bad] + b) == Passing(G, v, a + b)
    ensures Reports(G, v, a + [bad] + b) == Reports(G, v, a) + [Check(G, v, bad).report] + Reports(G, v, b)
    ensures |Reports(G, v, a + [bad] + b)| == |Reports(G, v, a + b)| + 1
    ensures var with, without := FinalizedWithReports(F, G, v, a + [bad] + b, threshold), FinalizedWithReports(F, G, v, a + b, threshold);
      (with.Failure? && with == without) || (with.Success? && without.Success? && with.value.0 == without.value.0)
  {
    hide Check, Finalized;
    OneFailure(G, v, bad);
    PassingConcat(G, v, a, [bad]);
    PassingConcat(G, v, a + [bad], b);
    PassingConcat(G, v, a, b);
  }

  /** A response with proof as an honest server builds it (`VerifiedOprfServer::evaluate`). */
  function HonestResponse<P, S, E, I, K>(F: Field<S>, G: Group<P, S, E, I, K>, share: Share<P, S>, blinded: P, k: S): Response<S, E> {
    var point := G.Scale(blinded, share.scalar);
    Response(share.index, G.Compress(point), CreateDleq(F, G, share.scalar, blinded, point, share.publicKey, k))
  }

  /** Honest responses pass the check, provided the server's own key is on record under its index, with one key per server. */
  lemma HonestResponsePasses<P(!new), S(!new), E(!new), I, K>(
    F: Field<S>, G: Group<P, S, E, I, K>, v: Verifier<P, S, E>, share: Share<P, S>, k: S)
    requires IsGroup(F, G) && share.publicKey == G.Scale(G.base, share.scalar)
    requires (share.index, G.Compress(share.publicKey)) in v.publicKeys && DistinctServers(v.publicKeys)
    ensures Check(G, v, HonestResponse(F, G, share, v.client.blinded, k)) == Good(G.Compress(G.Scale(v.client.blinded, share.scalar)))
  {
    hide IsGroup, CreateDleq, VerifyDleq;
    HonestDleqVerifies(F, G, share.scalar, v.client.blinded, k);
    EntryOnRecord(v.publicKeys, share.index, G.Compress(share.publicKey));
    KeyFound(v.publicKeys, share.index);
    Readable(F, G, v.client.blinded);
    Readable(F, G, share.publicKey);
    Readable(F, G, G.Scale(v.client.blinded, share.scalar));
  }

  /** The keys on record are those of the dealing, one a server. */
  ghost predicate KeysOf<P, S, E, I, K>(F: Field<S>, G: Group<P, S, E, I, K>, coeffs: seq<S>, keys: seq<(nat, E)>) {
    && DistinctServers(keys)
    && forall i :: 0 <= i < |keys| ==> keys[i].0 <= 255 && keys[i].1 == G.Compress(Dealt(F, G, coeffs, keys[i].0).publicKey)
  }

  /** A dealt share answers with the polynomial at its index, under the key it was dealt, and passes. */
  lemma DealtPasses<P(!new), S(!new), E(!new), I, K>(
    F: Field<S>, G: Group<P, S, E, I, K>, v: Verifier<P, S, E>, coeffs: seq<S>, i: nat, k: S)
    requires IsGroup(F, G) && KeysOf(F, G, coeffs, v.publicKeys) && Listed(v.publicKeys, i)
    ensures Check(G, v, HonestResponse(F, G, Dealt(F, G, coeffs, i), v.client.blinded, k))
      == Good(G.Compress(G.Scale(v.client.blinded, Eval(F, coeffs, OfNat(F, i)))))
  {
    hide IsGroup, Check, HonestResponse, Eval, OfNat;
    var j :| 0 <= j < |v.publicKeys| && v.publicKeys[j].0 == i;
    assert v.publicKeys[j] in v.publicKeys;
    HonestResponsePasses(F, G, v, Dealt(F, G, coeffs, i), k);
  }

  /** End to end: among any responses at all, if enough pass and the first of those come from distinct honest servers, the
      key is the one fixed by the input and the constant coefficient. */
  lemma VerifiedKeyIsDetermined<P(!new), S(!new), E(!new), I, K>(
    F: Field<S>, G: Group<P, S, E, I, K>, coeffs: seq<S>, input: I, v: Verifier<P, S, E>, rs: seq<Response<S, E>>)
    requires IsGroup(F, G) && DistinctIndices(F) && coeffs != []
    requires v.client.r != F.zero && v.client == NewClient(G, input, v.client.r)
    requires |Passing(G, v, rs)| >= |coeffs| && DistinctServers(Passing(G, v, rs)[..|coeffs|])
    requires forall i :: 0 <= i < |coeffs| ==> Honest(F, G, coeffs, v.client, Passing(G, v, rs)[i])
    ensures FinalizedWithReports(F, G, v, rs, |coeffs|) ==
      Success((G.deriveKey(G.Compress(G.Scale(G.hashToGroup(input), coeffs[0]))), Reports(G, v, rs)))
  {
    hide Honest, Finalized, IsGroup, Passing, DistinctIndices;
    KeyIsDetermined(F, G, coeffs, input, v.client.r, Passing(G, v, rs));
  }

  /** Where a response comes from: a server of the dealing with its nonce, or anywhere. */
  datatype Sender<S> = Server(index: nat, nonce: S) | Anyone

  ghost predicate Sent<P, S, E, I, K>(
    F: Field<S>, G: Group<P, S, E, I, K>, v: Verifier<P, S, E>, coeffs: seq<S>, who: Sender<S>, resp: Response<S, E>)
  {
    match who
    case Server(i, k) =>
      Listed(v.publicKeys, i) && resp == HonestResponse(F, G, Dealt(F, G, coeffs, i), v.client.blinded, k)
    case Anyone => Check(G, v, resp).Bad?
  }

  /** The servers among the senders, in order. */
  function Servers<S>(senders: seq<Sender<S>>): (r: seq<nat>)
    ensures |r| <= |senders|
  {
    if senders == [] then []
    else
      var n := |senders| - 1;
      Servers(senders[..n]) + if senders[n].Server? then [senders[n].index] else []
  }

  /** Exactly the answers of the servers pass, in order, and exactly the others are reported. */
  lemma {:induction false} ServersPass<P(!new), S(!new), E(!new), I, K>(
    F: Field<S>, G: Group<P, S, E, I, K>, v: Verifier<P, S, E>, coeffs: seq<S>, senders: seq<Sender<S>>, rs: seq<Response<S, E>>)
    requires IsGroup(F, G) && KeysOf(F, G, coeffs, v.publicKeys) && |senders| == |rs|
    requires forall i :: 0 <= i < |rs| ==> Sent(F, G, v, coeffs, senders[i], rs[i])
    ensures var servers, passing := Servers(senders), Passing(G, v, rs);
      && |passing| == |servers|
      && forall i :: 0 <= i < |servers| ==> passing[i].0 == servers[i] && Honest(F, G, coeffs, v.client, passing[i])
    ensures |Reports(G, v, rs)| == |rs| - |Servers(senders)|
  {
    hide IsGroup, Check, HonestResponse, Eval, OfNat, KeysOf;
    if rs != [] {
      var n := |rs| - 1;
      ServersPass(F, G, v, coeffs, senders[..n], rs[..n]);
      assert Sent(F, G, v, coeffs, senders[n], rs[n]);
      if senders[n].Server? {
        ServerSent(F, G, v, coeffs, senders[n], rs[n]);
      }
    }
  }

  lemma ServerSent<P(!new), S(!new), E(!new), I, K>(
    F: Field<S>, G: Group<P, S, E, I, K>, v: Verifier<P, S, E>, coeffs: seq<S>, who: Sender<S>, resp: Response<S, E>)
    requires IsGroup(F, G) && KeysOf(F, G, coeffs, v.publicKeys) && who.Server? && Sent(F, G, v, coeffs, who, resp)
    ensures Check(G, v, resp).Good? && resp.serverIndex == who.index
    ensures Honest(F, G, coeffs, v.client, (resp.serverIndex, Check(G, v, resp).point))
  {
    hide IsGroup, Check, Eval, OfNat;
    var i :| 0 <= i < |v.publicKeys| && v.publicKeys[i].0 == who.index;
    DealtPasses(F, G, v, coeffs, who.index, who.nonce);
  }

  /** The protocol: if the answers of threshold-many distinct servers of a dealing are among the responses and everything
      else fails the check, the key comes out, and everything else is reported. */
  lemma ServersDetermineKey<P(!new), S(!new), E(!new), I, K>(
    F: Field<S>, G: Group<P, S, E, I, K>, coeffs: seq<S>, input: I, v: Verifier<P, S, E>, senders: seq<Sender<S>>, rs: seq<Response<S, E>>)
    requires IsGroup(F, G) && DistinctIndices(F) && coeffs != [] && KeysOf(F, G, coeffs, v.publicKeys)
    requires v.client.r != F.zero && v.client == NewClient(G, input, v.client.r)
    requires |senders| == |rs| && forall i :: 0 <= i < |rs| ==> Sent(F, G, v, coeffs, senders[i], rs[i])
    requires |Servers(senders)| >= |coeffs|
    requires forall i, j :: 0 <= i < j < |Servers(senders)| ==> Servers(senders)[i] != Servers(senders)[j]
    ensures var r := FinalizedWithReports(F, G, v, rs, |coeffs|);
      && r.Success? && r.value.0 == G.deriveKey(G.Compress(G.Scale(G.hashToGroup(input), coeffs[0])))
      && |r.value.1| == |rs| - |Servers(senders)|
  {
    hide IsGroup, DistinctIndices, KeysOf, Sent, Servers, Passing, Reports, FinalizedWithReports, Honest;
    ServersPass(F, G, v, coeffs, senders, rs);
    VerifiedKeyIsDetermined(F, G, coeffs, input, v, rs);
  }
}
