/** What the add and delete specifications promise across calls: failures pass through, the
    duplicate check ignores the description, repeating an operation changes nothing, and where the
    single page of 100 rules breaks those promises: add's and delete's idempotence, and delete's
    completeness. */
module Properties {
  import opened Wrappers
  import opened FirewallRules
  import opened Lighthouse
  import opened Firewall

  /** A failed describe call is returned by add as it is, and nothing is created. */
  lemma AddQueryFailurePropagates(rules: seq<Rule>, req: AddRequest, e: SdkError, created: Response)
    ensures AddOutcome(rules, req, Raised(e), created) == Outcome(Failure(e), rules)
  {
  }

  /** A failed describe call is returned by delete as it is, and nothing is deleted. */
  lemma DeleteQueryFailurePropagates(rules: seq<Rule>, c: Criteria, e: SdkError, deleted: Response)
    ensures DelOutcome(rules, c, Raised(e), deleted) == Outcome(Failure(e), rules)
  {
  }

  /** Whenever add fails, its error is one the remote raised, passed through unchanged, and the
      rule set is as it was. */
  lemma AddFailureChangesNothing(rules: seq<Rule>, req: AddRequest, listed: Response, created: Response)
    ensures var o := AddOutcome(rules, req, listed, created);
      o.result.Failure? ==> o.rules == rules && (listed == Raised(o.result.error) || created == Raised(o.result.error))
  {
  }

  /** Whenever delete fails, its error is one the remote raised, passed through unchanged, and the
      rule set is as it was. */
  lemma DeleteFailureChangesNothing(rules: seq<Rule>, c: Criteria, listed: Response, deleted: Response)
    ensures var o := DelOutcome(rules, c, listed, deleted);
      o.result.Failure? ==> o.rules == rules && (listed == Raised(o.result.error) || deleted == Raised(o.result.error))
  {
  }

  /** With no match on the page, a raised create is returned by add as its failure, and nothing
      is created. */
  lemma AddCreateFailurePropagates(rules: seq<Rule>, req: AddRequest, listId: string, e: SdkError)
    requires forall x :: x in Take(rules, PageLimit) ==> !Matches(x, DuplicateCriteria(req))
    ensures AddOutcome(rules, req, Accepted(listId), Raised(e)) == Outcome(Failure(e), rules)
  {
    NoneSelected(Take(rules, PageLimit), DuplicateCriteria(req));
  }

  /** With a match on the page, a raised delete is returned by delete as its failure, and nothing
      is deleted. */
  lemma DeleteRemoteFailurePropagates(rules: seq<Rule>, c: Criteria, hit: Rule, listId: string, e: SdkError)
    requires hit in Take(rules, PageLimit) && Matches(hit, c)
    ensures DelOutcome(rules, c, Accepted(listId), Raised(e)) == Outcome(Failure(e), rules)
  {
    assert hit in Select(Take(rules, PageLimit), c);
  }

  /** Add creates at most one rule, and only the requested one, and only when it succeeds with
      "Add 1 rules". */
  lemma AddCreatesAtMostOne(rules: seq<Rule>, req: AddRequest, listed: Response, created: Response)
    ensures var o := AddOutcome(rules, req, listed, created);
      (o.rules == rules && !(o.result.Success? && o.result.value.message.Created?))
      || (o.rules == rules + [NewRule(req)] && o.result == Success(Reply(Created(1), created.requestId)))
  {
  }

  /** A listed rule that agrees with the request on protocol, port, source and action makes the
      add report that the rule exists, whatever its description, and nothing is created. */
  lemma AddIgnoresDescription(rules: seq<Rule>, req: AddRequest, existing: Rule, listId: string, created: Response)
    requires existing in Take(rules, PageLimit)
    requires existing.protocol == Some(req.protocol) && existing.port == Some(req.port)
    requires existing.cidrBlock == Some(req.source) && existing.action == Some(req.action)
    ensures AddOutcome(rules, req, Accepted(listId), created)
      == Outcome(Success(Reply(AlreadyExists(req.protocol, req.port, req.source, req.action), listId)), rules)
  {
    assert existing in Select(Take(rules, PageLimit), DuplicateCriteria(req));
  }

  /** When no listed rule agrees on the four fields and the create succeeds, exactly the
      requested rule, description included, is appended. */
  lemma AddCreatesWhenAbsent(rules: seq<Rule>, req: AddRequest, listId: string, createId: string)
    requires forall x :: x in Take(rules, PageLimit) ==> !Matches(x, DuplicateCriteria(req))
    ensures AddOutcome(rules, req, Accepted(listId), Accepted(createId))
      == Outcome(Success(Reply(Created(1), createId)), rules + [NewRule(req)])
  {
    NoneSelected(Take(rules, PageLimit), DuplicateCriteria(req));
  }

  /** Add is idempotent below the page limit: after a successful add, a second add with the same
      protocol, port, source and action (any description) reports that the rule exists and
      creates nothing. */
  lemma AddTwiceCreatesOnce(rules: seq<Rule>, req: AddRequest, again: AddRequest,
                            listed: Response, created: Response, listId: string, createdAgain: Response)
    requires |rules| < PageLimit
    requires again.protocol == req.protocol && again.port == req.port
    requires again.source == req.source && again.action == req.action
    requires AddOutcome(rules, req, listed, created).result.Success?
    ensures var first := AddOutcome(rules, req, listed, created);
      AddOutcome(first.rules, again, Accepted(listId), createdAgain)
        == Outcome(Success(Reply(AlreadyExists(req.protocol, req.port, req.source, req.action), listId)), first.rules)
  {
    var first := AddOutcome(rules, req, listed, created);
    var page := Take(rules, PageLimit);
    var dup := Select(page, DuplicateCriteria(req));
    if dup != [] {
      assert dup[0] in dup;
      AddIgnoresDescription(first.rules, again, dup[0], listId, createdAgain);
    } else {
      assert first.rules == rules + [NewRule(req)];
      assert Take(first.rules, PageLimit) == first.rules;
      assert NewRule(req) in first.rules;
      AddIgnoresDescription(first.rules, again, NewRule(req), listId, createdAgain);
    }
  }

  /** A rule that does not meet any set criterion. */
  const Filler: Rule := Rule(Some("UDP"), Some("53"), Some("10.0.0.0/8"), Some("DROP"), Some("dns"))

  /** The example request of an add: allow TCP port 22 from anywhere. */
  const SshRequest: AddRequest := AddRequest("TCP", "22", "0.0.0.0/0", "ACCEPT", "ssh")

  /** At the page limit add is not idempotent: when 100 or more rules are present and none on
      the first page matches, the created rule lands past the first page, the second add cannot
      see it, and a duplicate is created. */
  lemma AddAtPageLimitDuplicates(rules: seq<Rule>, req: AddRequest,
                                 listId: string, createId: string, listAgain: string, createAgain: string)
    requires |rules| >= PageLimit
    requires forall x :: x in Take(rules, PageLimit) ==> !Matches(x, DuplicateCriteria(req))
    ensures var first := AddOutcome(rules, req, Accepted(listId), Accepted(createId));
      var second := AddOutcome(first.rules, req, Accepted(listAgain), Accepted(createAgain));
      && first == Outcome(Success(Reply(Created(1), createId)), rules + [NewRule(req)])
      && second == Outcome(Success(Reply(Created(1), createAgain)), rules + [NewRule(req), NewRule(req)])
  {
    AddCreatesWhenAbsent(rules, req, listId, createId);
    var grown := rules + [NewRule(req)];
    assert Take(grown, PageLimit) == Take(rules, PageLimit);
    AddCreatesWhenAbsent(grown, req, listAgain, createAgain);
    assert grown + [NewRule(req)] == rules + [NewRule(req), NewRule(req)];
  }

  /** With no rule meeting the criteria on the first page, delete reports "No rules matched" and
      changes nothing. */
  lemma DeleteNoMatchIsNoop(rules: seq<Rule>, c: Criteria, listId: string, deleted: Response)
    requires forall x :: x in Take(rules, PageLimit) ==> !Matches(x, c)
    ensures DelOutcome(rules, c, Accepted(listId), deleted) == Outcome(Success(Reply(NoRulesMatched, listId)), rules)
  {
    NoneSelected(Take(rules, PageLimit), c);
  }

  /** A successful delete of a non-empty match removes exactly the matched rules, reports their
      number, and leaves every rule that does not meet the criteria in place and in order. */
  lemma DeleteRemovesExactlyMatched(rules: seq<Rule>, c: Criteria, listId: string, deleteId: string, hit: Rule)
    requires hit in Take(rules, PageLimit) && Matches(hit, c)
    ensures var matched := Select(Take(rules, PageLimit), c);
      var o := DelOutcome(rules, c, Accepted(listId), Accepted(deleteId));
      && o.result == Success(Reply(Deleted(|matched|), deleteId))
      && |matched| >= 1
      && (forall x :: x in o.rules <==> x in rules && x !in matched)
      && (forall x :: x in rules && !Matches(x, c) ==> x in o.rules)
      && (forall x :: !Matches(x, c) ==> multiset(o.rules)[x] == multiset(rules)[x])
      && IsSubsequence(o.rules, rules)
  {
    var matched := Select(Take(rules, PageLimit), c);
    assert hit in matched;
  }

  /** Delete is idempotent up to the page limit: after a successful delete, the same delete
      reports "No rules matched" and changes nothing. */
  lemma DeleteTwiceIsNoop(rules: seq<Rule>, c: Criteria, listed: Response, deleted: Response,
                          listId: string, deletedAgain: Response)
    requires |rules| <= PageLimit
    requires DelOutcome(rules, c, listed, deleted).result.Success?
    ensures var first := DelOutcome(rules, c, listed, deleted);
      DelOutcome(first.rules, c, Accepted(listId), deletedAgain) == Outcome(Success(Reply(NoRulesMatched, listId)), first.rules)
  {
    var first := DelOutcome(rules, c, listed, deleted);
    var matched := Select(rules, c);
    assert Take(rules, PageLimit) == rules;
    assert |first.rules| <= |rules|;
    assert Take(first.rules, PageLimit) == first.rules;
    if matched == [] {
      NoneSelected(rules, c);
    } else {
      assert first.rules == Remove(rules, matched);
    }
    DeleteNoMatchIsNoop(first.rules, c, listId, deletedAgain);
  }

  /** A delete with every criterion unset removes the whole rule set when it fits in one page. */
  lemma DeleteWildcardClearsAll(rules: seq<Rule>, listId: string, deleteId: string)
    requires |rules| <= PageLimit
    ensures DelOutcome(rules, Wildcard, Accepted(listId), Accepted(deleteId)).rules == []
  {
    assert Take(rules, PageLimit) == rules;
    SelectWildcard(rules);
    RemoveCovered(rules, rules);
  }

  /** A second TCP rule that differs from the SSH rule in everything but its protocol. */
  const WebRule: Rule := Rule(Some("TCP"), Some("80"), Some("0.0.0.0/0"), Some("ACCEPT"), Some("web"))

  /** The criteria of a delete of every TCP rule. */
  const AnyTcp: Criteria := Criteria(Some("TCP"), None, None, None, None)

  /** The 99 non-matching rules that, behind the SSH rule, fill the first page. */
  const Fillers: seq<Rule> := seq(PageLimit - 1, _ => Filler)

  /** The first delete of every TCP rule sees the SSH rule and the fillers, and removes the SSH rule. */
  lemma FirstDeletePastPage(listId: string, deleteId: string)
    ensures DelOutcome([NewRule(SshRequest)] + Fillers + [WebRule], AnyTcp, Accepted(listId), Accepted(deleteId))
      == Outcome(Success(Reply(Deleted(1), deleteId)), Fillers + [WebRule])
  {
    var t1 := NewRule(SshRequest);
    var left := Fillers + [WebRule];
    var rules := [t1] + Fillers + [WebRule];
    assert forall x :: x in Fillers ==> x == Filler;
    assert Take(rules, PageLimit) == [t1] + Fillers;
    SelectHead([t1] + Fillers, AnyTcp);
    assert ([t1] + Fillers)[1..] == Fillers;
    NoneSelected(Fillers, AnyTcp);
    assert Select(Take(rules, PageLimit), AnyTcp) == [t1];
    assert rules == [t1] + left;
    RemoveHead(rules, [t1]);
    RemoveDisjoint(left, [t1]);
  }

  /** With the SSH rule gone the web rule is on the page, and the same delete removes it. */
  lemma SecondDeletePastPage(listId: string, deleteId: string)
    ensures DelOutcome(Fillers + [WebRule], AnyTcp, Accepted(listId), Accepted(deleteId))
      == Outcome(Success(Reply(Deleted(1), deleteId)), Fillers)
  {
    var left := Fillers + [WebRule];
    assert forall x :: x in Fillers ==> x == Filler;
    assert Take(left, PageLimit) == left;
    SelectSkip(Fillers, [WebRule], AnyTcp);
    assert Select([WebRule], AnyTcp) == [WebRule];
    RemoveDropsSuffix(Fillers, [WebRule], [WebRule]);
    RemoveDisjoint(Fillers, [WebRule]);
  }

  /** Past the page limit delete is not idempotent: with a TCP rule first, 99 non-matching rules
      and a second TCP rule behind them, the first delete of every TCP rule removes only the first
      one, the second moves onto the page, and repeating the delete removes it too. */
  lemma DeleteTwicePastPage(listId: string, deleteId: string, listAgain: string, deleteAgain: string)
    ensures var rules := [NewRule(SshRequest)] + Fillers + [WebRule];
      var first := DelOutcome(rules, AnyTcp, Accepted(listId), Accepted(deleteId));
      var second := DelOutcome(first.rules, AnyTcp, Accepted(listAgain), Accepted(deleteAgain));
      && |rules| == PageLimit + 1
      && first == Outcome(Success(Reply(Deleted(1), deleteId)), Fillers + [WebRule])
      && second == Outcome(Success(Reply(Deleted(1), deleteAgain)), Fillers)
  {
    FirstDeletePastPage(listId, deleteId);
    SecondDeletePastPage(listAgain, deleteAgain);
  }

  /** Past the page limit delete misses rules: with 100 non-matching rules first, a matching rule
      behind them is not seen and the delete reports "No rules matched". */
  lemma DeleteMissesBeyondPage(listId: string, deleted: Response)
    ensures var rules := seq(PageLimit, _ => Filler) + [NewRule(SshRequest)];
      && Matches(NewRule(SshRequest), DuplicateCriteria(SshRequest))
      && DelOutcome(rules, DuplicateCriteria(SshRequest), Accepted(listId), deleted)
        == Outcome(Success(Reply(NoRulesMatched, listId)), rules)
  {
    var rules := seq(PageLimit, _ => Filler) + [NewRule(SshRequest)];
    assert Take(rules, PageLimit) == seq(PageLimit, _ => Filler);
    DeleteNoMatchIsNoop(rules, DuplicateCriteria(SshRequest), listId, deleted);
  }
}
