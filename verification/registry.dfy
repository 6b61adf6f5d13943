/** The relay registry: an append-only, ordered list of `{nodeId, pubKey}`
    records, admitted one request at a time by the `/registerNode` handler and
    listed verbatim by `/getNodeRegistry`. The module-level array of the
    program becomes an immutable sequence threaded through pure functions. */
module Registry {

  /** Length of an accepted public key: the unpadded base64 text of a 294-byte
      SPKI export of a 2048-bit RSA key (section 4 of RFC 4648: 98 groups of
      three bytes, four characters each). */
  const KeyLength: nat := 392

  datatype Node = Node(nodeId: int, pubKey: string)

  /** One field of the JSON request body, as far as `typeof` distinguishes it. */
  datatype Json = Missing | Number(n: int) | Text(s: string) | Other

  datatype RegisterNodeBody = RegisterNodeBody(nodeId: Json, pubKey: Json)

  datatype GetNodeRegistryBody = GetNodeRegistryBody(nodes: seq<Node>)

  /** Why a registration was refused: one per error reply of the handler. */
  datatype Reason = InvalidNodeData | InvalidKeyFormat | IdInUse | KeyInUse
  {
    /** The `error` text of the handler's JSON reply for this reason. */
    function Message(): (text: string) {
      match this
      case InvalidNodeData => "Invalid node data"
      case InvalidKeyFormat => "Invalid public key format"
      case IdInUse => "Node ID already registered"
      case KeyInUse => "Public key already in use"
    }
  }

  /** A client can tell every refusal apart by its error text alone. */
  lemma MessageIdentifiesReason(a: Reason, b: Reason)
    ensures a.Message() == b.Message() <==> a == b
  {
  }

  /** The handler's reply, without the HTTP framing. */
  datatype Outcome = BadRequest(reason: Reason) | Conflict(reason: Reason) | Created(node: Node)
  {
    /** The HTTP status code the handler sends with this reply. */
    function Code(): (code: int) {
      match this
      case BadRequest(_) => 400
      case Conflict(_) => 409
      case Created(_) => 201
    }
  }

  /** A registration step: the reply and the registry after the request. */
  datatype Reply = Reply(outcome: Outcome, registry: seq<Node>)

  /** Several registrations in a row: one outcome per request, and the final registry. */
  datatype Run = Run(outcomes: seq<Outcome>, registry: seq<Node>)

  /** The character class `[A-Za-z0-9+/]` of the key-format pattern. */
  predicate IsKeyChar(c: char) {
    ('A' <= c <= 'Z') || ('a' <= c <= 'z') || ('0' <= c <= '9') || c == '+' || c == '/'
  }

  /** The anchored pattern `^[A-Za-z0-9+/]{392}$`. */
  predicate ValidKey(s: string) {
    |s| == KeyLength && forall i :: 0 <= i < |s| ==> IsKeyChar(s[i])
  }

  /** The pattern test, scanning the candidate key once from the left. */
  method MatchesKeyPattern(s: string) returns (ok: bool)
    ensures ok <==> ValidKey(s)
    ensures ok ==> '=' !in s
  {
    if |s| != KeyLength {
      return false;
    }
    var i := 0;
    while i < |s|
      invariant 0 <= i <= |s|
      invariant forall j :: 0 <= j < i ==> IsKeyChar(s[j])
    {
      if !IsKeyChar(s[i]) {
        return false;
      }
      i := i + 1;
    }
    return true;
  }

  /** `Array.prototype.some` over the registry. */
  function AnyNode(nodes: seq<Node>, p: Node -> bool): (r: bool)
    ensures r <==> exists i :: 0 <= i < |nodes| && p(nodes[i])
  {
    if |nodes| == 0 then false
    else if p(nodes[0]) then true
    else
      var rest := AnyNode(nodes[1..], p);
      assert forall i :: 1 <= i < |nodes| ==> nodes[i] == nodes[1..][i - 1];
      rest
  }

  predicate IdRegistered(nodes: seq<Node>, id: int) {
    exists n :: n in nodes && n.nodeId == id
  }

  predicate KeyRegistered(nodes: seq<Node>, key: string) {
    exists n :: n in nodes && n.pubKey == key
  }

  /** Registry invariant: ids pairwise distinct, keys pairwise distinct, every key well-formed. */
  predicate Wf(nodes: seq<Node>) {
    && (forall i, j :: 0 <= i < j < |nodes| ==> nodes[i].nodeId != nodes[j].nodeId)
    && (forall i, j :: 0 <= i < j < |nodes| ==> nodes[i].pubKey != nodes[j].pubKey)
    && (forall i :: 0 <= i < |nodes| ==> ValidKey(nodes[i].pubKey))
  }

  predicate WellTyped(body: RegisterNodeBody) {
    body.nodeId.Number? && body.pubKey.Text?
  }

  /** Every check the request fails, in the order the handler performs them.
      Without the right types the later checks have nothing to look at. */
  function FailedChecks(nodes: seq<Node>, body: RegisterNodeBody): (failed: seq<Reason>) {
    if !WellTyped(body) then [InvalidNodeData]
    else
      var id := body.nodeId.n;
      var key := body.pubKey.s;
      (if ValidKey(key) then [] else [InvalidKeyFormat])
      + (if IdRegistered(nodes, id) then [IdInUse] else [])
      + (if KeyRegistered(nodes, key) then [KeyInUse] else [])
  }

  /** The reply the four checks call for: the first failing check decides the
      error, 400 for a malformed request and 409 for a conflict; a request that
      fails none is appended at the end. */
  function ExpectedReply(nodes: seq<Node>, body: RegisterNodeBody): (r: Reply) {
    var failed := FailedChecks(nodes, body);
    if failed == [] then
      var node := Node(body.nodeId.n, body.pubKey.s);
      Reply(Created(node), nodes + [node])
    else if failed[0] in {InvalidNodeData, InvalidKeyFormat} then
      Reply(BadRequest(failed[0]), nodes)
    else
      Reply(Conflict(failed[0]), nodes)
  }

  /** The `/registerNode` handler on a given registry. */
  function Register(nodes: seq<Node>, body: RegisterNodeBody): (r: Reply)
    ensures r == ExpectedReply(nodes, body)
  {
    if !WellTyped(body) then
      Reply(BadRequest(InvalidNodeData), nodes)
    else
      var id := body.nodeId.n;
      var key := body.pubKey.s;
      if !ValidKey(key) then
        Reply(BadRequest(InvalidKeyFormat), nodes)
      else if AnyNode(nodes, (n: Node) => n.nodeId == id) then
        Reply(Conflict(IdInUse), nodes)
      else if AnyNode(nodes, (n: Node) => n.pubKey == key) then
        Reply(Conflict(KeyInUse), nodes)
      else
        var node := Node(id, key);
        Reply(Created(node), nodes + [node])
  }

  /** The handler's reply in the terms of the checks: a request is admitted iff it
      fails none of them, and a refused one leaves the list as it was and names
      the first failure, with 400 for a malformed request and 409 for a conflict. */
  lemma RegisterOutcomes(nodes: seq<Node>, body: RegisterNodeBody)
    ensures var r := Register(nodes, body);
            && (r.outcome.Created? <==> FailedChecks(nodes, body) == [])
            && (r.outcome.Created? ==>
                  && r.outcome.node == Node(body.nodeId.n, body.pubKey.s)
                  && r.registry == nodes + [r.outcome.node])
            && (!r.outcome.Created? ==>
                  && r.registry == nodes
                  && r.outcome.reason == FailedChecks(nodes, body)[0])
            && (r.outcome.Code() == 400 <==> !r.outcome.Created? && r.outcome.reason in {InvalidNodeData, InvalidKeyFormat})
            && (r.outcome.Code() == 409 <==> !r.outcome.Created? && r.outcome.reason in {IdInUse, KeyInUse})
  {
  }

  /** One request keeps the registry invariant. */
  lemma RegisterPreservesWf(nodes: seq<Node>, body: RegisterNodeBody)
    requires Wf(nodes)
    ensures Wf(Register(nodes, body).registry)
  {
    var r := Register(nodes, body);
    if r.outcome.Created? {
      assert FailedChecks(nodes, body) == [];
      assert ValidKey(r.outcome.node.pubKey);
      assert !IdRegistered(nodes, r.outcome.node.nodeId) && !KeyRegistered(nodes, r.outcome.node.pubKey);
    }
  }

  /** The `/getNodeRegistry` handler: the stored list, as it is. */
  function GetNodeRegistry(nodes: seq<Node>): (r: GetNodeRegistryBody)
    ensures |r.nodes| == |nodes| && forall i :: 0 <= i < |nodes| ==> r.nodes[i] == nodes[i]
  {
    GetNodeRegistryBody(nodes)
  }

  /** A sequential series of `/registerNode` requests. */
  function RegisterAll(nodes: seq<Node>, bodies: seq<RegisterNodeBody>): (r: Run)
    ensures |r.outcomes| == |bodies|
    decreases |bodies|
  {
    if |bodies| == 0 then Run([], nodes)
    else
      var step := Register(nodes, bodies[0]);
      var rest := RegisterAll(step.registry, bodies[1..]);
      Run([step.outcome] + rest.outcomes, rest.registry)
  }

  /** The records admitted by a series of outcomes, in order. */
  function CreatedNodes(outcomes: seq<Outcome>): (admitted: seq<Node>) {
    if |outcomes| == 0 then []
    else Admitted(outcomes[0]) + CreatedNodes(outcomes[1..])
  }

  /** The number of `Created` outcomes. */
  function CountCreated(outcomes: seq<Outcome>): (count: nat) {
    if |outcomes| == 0 then 0
    else (if outcomes[0].Created? then 1 else 0) + CountCreated(outcomes[1..])
  }

  lemma {:induction false} RegisterAllPreservesWf(nodes: seq<Node>, bodies: seq<RegisterNodeBody>)
    requires Wf(nodes)
    ensures Wf(RegisterAll(nodes, bodies).registry)
    decreases |bodies|
  {
    if |bodies| > 0 {
      RegisterPreservesWf(nodes, bodies[0]);
      RegisterAllPreservesWf(Register(nodes, bodies[0]).registry, bodies[1..]);
    }
  }

  /** The record an outcome admits, if any. */
  function Admitted(o: Outcome): (admitted: seq<Node>) {
    if o.Created? then [o.node] else []
  }

  /** One request appends exactly the record it admits. */
  lemma RegisterAppendsAdmitted(nodes: seq<Node>, body: RegisterNodeBody)
    ensures Register(nodes, body).registry == nodes + Admitted(Register(nodes, body).outcome)
  {
  }

  /** The registry only grows, and only by the admitted records, in admission order. */
  lemma {:induction false} RegisterAllAppendsCreated(nodes: seq<Node>, bodies: seq<RegisterNodeBody>)
    ensures RegisterAll(nodes, bodies).registry == nodes + CreatedNodes(RegisterAll(nodes, bodies).outcomes)
    decreases |bodies|
  {
    if |bodies| > 0 {
      var step := Register(nodes, bodies[0]);
      var rest := RegisterAll(step.registry, bodies[1..]);
      var outcomes := [step.outcome] + rest.outcomes;
      assert RegisterAll(nodes, bodies) == Run(outcomes, rest.registry);
      RegisterAllAppendsCreated(step.registry, bodies[1..]);
      RegisterAppendsAdmitted(nodes, bodies[0]);
      CreatedNodesCons(step.outcome, rest.outcomes);
      var admitted, later := Admitted(step.outcome), CreatedNodes(rest.outcomes);
      assert rest.registry == (nodes + admitted) + later;
      assert (nodes + admitted) + later == nodes + (admitted + later);
    }
  }

  /** Earlier registrations are never lost: the list before a series of requests
      is a prefix of the list after it. */
  lemma RegisterAllExtends(nodes: seq<Node>, bodies: seq<RegisterNodeBody>)
    ensures nodes <= RegisterAll(nodes, bodies).registry
  {
    RegisterAllAppendsCreated(nodes, bodies);
  }

  lemma CreatedNodesCons(o: Outcome, outcomes: seq<Outcome>)
    ensures CreatedNodes([o] + outcomes) == Admitted(o) + CreatedNodes(outcomes)
  {
    assert ([o] + outcomes)[1..] == outcomes;
  }

  /** Every `Created` outcome contributes exactly one admitted record. */
  lemma {:induction false} CreatedNodesCount(outcomes: seq<Outcome>)
    ensures |CreatedNodes(outcomes)| == CountCreated(outcomes)
  {
    if |outcomes| > 0 {
      CreatedNodesCount(outcomes[1..]);
    }
  }

  /** From an empty registry, the listing is exactly the admitted records, one
      per `Created` outcome, and satisfies the registry invariant. */
  lemma ListingIsAdmittedRecords(bodies: seq<RegisterNodeBody>)
    ensures GetNodeRegistry(RegisterAll([], bodies).registry).nodes == CreatedNodes(RegisterAll([], bodies).outcomes)
    ensures |GetNodeRegistry(RegisterAll([], bodies).registry).nodes| == CountCreated(RegisterAll([], bodies).outcomes)
    ensures Wf(GetNodeRegistry(RegisterAll([], bodies).registry).nodes)
  {
    RegisterAllAppendsCreated([], bodies);
    CreatedNodesCount(RegisterAll([], bodies).outcomes);
    RegisterAllPreservesWf([], bodies);
  }
}
