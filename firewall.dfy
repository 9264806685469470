/** The rule query engine and the idempotent rule mutator built on it: list with filters,
    add-if-absent, and delete-every-match. */
module Firewall {
  import opened Wrappers
  import opened FirewallRules
  import opened Lighthouse

  /** The page size of the single describe call; there is no further page. */
  const PageLimit: nat := 100

  /** The arguments of an add: all five fields of the rule to create. */
  datatype AddRequest = AddRequest(protocol: string, port: string, source: string, action: string, description: string)

  /** What a successful add or delete reports. */
  datatype Message =
    | AlreadyExists(protocol: string, port: string, source: string, action: string)
    | Created(count: nat)
    | NoRulesMatched
    | Deleted(count: nat)

  /** A successful add or delete: the report and the request id of the last remote call made. */
  datatype Reply = Reply(message: Message, requestId: string)

  /** The result of an add or delete together with the rule set it leaves behind. */
  datatype Outcome = Outcome(result: Result<Reply, SdkError>, rules: seq<Rule>)

  /** Two add requests that the duplicate check cannot tell apart. */
  predicate SameKey(a: AddRequest, b: AddRequest)
  {
    a.protocol == b.protocol && a.port == b.port && a.source == b.source && a.action == b.action
  }

  /** The duplicate check of an add: protocol, port, source and action, never the description. */
  function DuplicateCriteria(req: AddRequest): (c: Criteria)
    ensures c.description == None
    ensures forall r :: Matches(r, c) <==>
      r.protocol == Some(req.protocol) && r.port == Some(req.port)
      && r.cidrBlock == Some(req.source) && r.action == Some(req.action)
  {
    Criteria(Some(req.protocol), Some(req.port), Some(req.source), Some(req.action), None)
  }

  /** The rule an add creates: all five fields, the description included. */
  function NewRule(req: AddRequest): (r: Rule)
    ensures r.description == Some(req.description)
    ensures forall again :: SameKey(again, req) ==> Matches(r, DuplicateCriteria(again))
  {
    Rule(Some(req.protocol), Some(req.port), Some(req.source), Some(req.action), Some(req.description))
  }

  /** Specification of an add against the rule set `rules`, with the remote's answers to the
      describe call and to the create call. */
  function AddOutcome(rules: seq<Rule>, req: AddRequest, listed: Response, created: Response): (o: Outcome)
    ensures |rules| <= |o.rules| <= |rules| + 1 && o.rules[..|rules|] == rules
    ensures |o.rules| > |rules| ==>
      o.rules[|rules|] == NewRule(req) && forall x :: x in Take(rules, PageLimit) ==> !Matches(x, DuplicateCriteria(req))
  {
    NoneSelected(Take(rules, PageLimit), DuplicateCriteria(req));
    match listed
    case Raised(e) => Outcome(Failure(e), rules)
    case Accepted(listId) =>
      if Select(Take(rules, PageLimit), DuplicateCriteria(req)) != [] then
        Outcome(Success(Reply(AlreadyExists(req.protocol, req.port, req.source, req.action), listId)), rules)
      else
        match created
        case Raised(e) => Outcome(Failure(e), rules)
        case Accepted(createId) => Outcome(Success(Reply(Created(1), createId)), rules + [NewRule(req)])
  }

  /** Specification of a delete against the rule set `rules`, with the remote's answers to the
      describe call and to the delete call. */
  function DelOutcome(rules: seq<Rule>, c: Criteria, listed: Response, deleted: Response): (o: Outcome)
    ensures IsSubsequence(o.rules, rules)
    ensures forall x :: !Matches(x, c) ==> multiset(o.rules)[x] == multiset(rules)[x]
    ensures |rules| <= PageLimit && o.result.Success? && o.result.value.message.Deleted? ==>
      o.result.value.message.count == |rules| - |o.rules|
  {
    SubsequenceReflexive(rules);
    SelectRemovePartition(rules, c);
    match listed
    case Raised(e) => Outcome(Failure(e), rules)
    case Accepted(listId) =>
      var matched := Select(Take(rules, PageLimit), c);
      if matched == [] then
        Outcome(Success(Reply(NoRulesMatched, listId)), rules)
      else
        match deleted
        case Raised(e) => Outcome(Failure(e), rules)
        case Accepted(deleteId) =>
          assert |rules| <= PageLimit ==> matched == Select(rules, c);
          Outcome(Success(Reply(Deleted(|matched|), deleteId)), Remove(rules, matched))
  }

  /** The query: fetch the first page, then narrow it by each set criterion in turn. The five
      stages together equal the single conjunctive filter `Select` on the first page. */
  method ListFirewallRules(inst: Instance, c: Criteria, listed: Response) returns (res: Result<Listing, SdkError>)
    ensures listed.Raised? ==> res == Failure(listed.error)
    ensures listed.Accepted? ==> res == Success(Listing(Select(Take(inst.rules, PageLimit), c), listed.requestId))
    ensures listed.Accepted? ==> |res.value.ruleSet| <= PageLimit
  {
    var fetched := inst.DescribeFirewallRules(PageLimit, listed);
    if fetched.Failure? {
      return Failure(fetched.error);
    }
    var page := fetched.value.ruleSet;
    var kept := page;
    if c.protocol.Some? {
      kept := Keep(kept, Protocol, c.protocol.value);
    }
    assert kept == Stage(page, Protocol, c.protocol);
    if c.port.Some? {
      kept := Keep(kept, Port, c.port.value);
    }
    assert kept == Stage(Stage(page, Protocol, c.protocol), Port, c.port);
    if c.cidrBlock.Some? {
      kept := Keep(kept, CidrBlock, c.cidrBlock.value);
    }
    if c.action.Some? {
      kept := Keep(kept, Action, c.action.value);
    }
    if c.description.Some? {
      kept := Keep(kept, Description, c.description.value);
    }
    StagesEqualSelect(page, c);
    return Success(Listing(kept, fetched.value.requestId));
  }

  /** Add a rule unless one with the same protocol, port, source and action is already listed. */
  method AddFirewallRule(inst: Instance, req: AddRequest, listed: Response, created: Response)
    returns (res: Result<Reply, SdkError>)
    modifies inst
    ensures Outcome(res, inst.rules) == AddOutcome(old(inst.rules), req, listed, created)
  {
    var query := ListFirewallRules(inst, DuplicateCriteria(req), listed);
    if query.Failure? {
      return Failure(query.error);
    }
    var matched := query.value.ruleSet;
    if |matched| >= 1 {
      return Success(Reply(AlreadyExists(req.protocol, req.port, req.source, req.action), query.value.requestId));
    }
    var sent := inst.CreateFirewallRules([NewRule(req)], created);
    if sent.Failure? {
      return Failure(sent.error);
    }
    return Success(Reply(Created(1), sent.value));
  }

  /** Delete every listed rule that meets the criteria, in one bulk request; nothing when none does. */
  method DelFirewallRule(inst: Instance, c: Criteria, listed: Response, deleted: Response)
    returns (res: Result<Reply, SdkError>)
    modifies inst
    ensures Outcome(res, inst.rules) == DelOutcome(old(inst.rules), c, listed, deleted)
  {
    var query := ListFirewallRules(inst, c, listed);
    if query.Failure? {
      return Failure(query.error);
    }
    var matched := query.value.ruleSet;
    if |matched| == 0 {
      return Success(Reply(NoRulesMatched, query.value.requestId));
    }
    var sent := inst.DeleteFirewallRules(matched, deleted);
    if sent.Failure? {
      return Failure(sent.error);
    }
    return Success(Reply(Deleted(|matched|), sent.value));
  }
}
