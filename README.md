# Firewall rule manager for a cloud instance: verified model of the query and mutation layer

The script `scripts/firewall.py` adds, lists and deletes firewall rules of one Tencent Cloud
Lighthouse instance through the provider's SDK. This project models the logic that sits between its
command line and the SDK:

- **Query** (`ls_firewall_rule`): fetch one page of at most 100 rules, then narrow it by up to five
  optional exact-equality criteria (protocol, port, CIDR block, action, description), one guarded
  `filter` stage per criterion. An unset criterion matches everything; a set criterion never matches
  a rule that lacks that field.
- **Add** (`add_firewall_rule`): query on protocol, port, source and action (never description);
  create one rule carrying all five fields only when nothing matched.
- **Delete** (`del_firewall_rule`): query on all five criteria; delete exactly the matched rules in
  one bulk request, or do nothing and report "No rules matched".

Layout:

- `wrappers.dfy` (module `Wrappers`): `Option` and `Result`.
- `rules.dfy` (module `FirewallRules`): the `Rule` and `Criteria` records, whose fields are all
  `Option<string>`; `Accepts` and `Matches`, the per-field and conjunctive equality tests; `Keep`, one
  filter stage, and `Stage`, that stage guarded by "criterion is set"; `Select`, a single-pass conjunctive filter used as the
  reference for the query; `Take`, the first page; `Remove`, what a bulk delete leaves behind.
- `lighthouse.dfy` (module `Lighthouse`): the remote API as a class `Instance` whose field `rules` is
  the instance's rule set. It has three calls: describe returns the first page, create appends, and
  delete removes every rule equal to a listed one. Each call receives a `Response` parameter. The
  response is either success with a request id, or an `SdkError` (code, message, request id) that
  the code passes on unchanged. A failed call changes nothing.
- `firewall.dfy` (module `Firewall`): `ListFirewallRules`, `AddFirewallRule` and `DelFirewallRule` as
  imperative methods that follow the source step by step. The pure functions `AddOutcome` and
  `DelOutcome` specify the result and the rule set each operation leaves. The methods are proved
  equal to these functions.
- `properties.dfy` (module `Properties`): lemmas about `AddOutcome` and `DelOutcome`. They cover
  failure propagation, the duplicate check ignoring description, and idempotence. They also show
  where the 100-rule page breaks add's idempotence, delete's completeness and delete's idempotence.

The "already exists" message is the tag `AlreadyExists` carrying the four fields it quotes.
"Add 1 rules" is `Created(1)`, "No rules matched" is `NoRulesMatched`, and "Deleted N rules"
is `Deleted(N)`. Each reply carries the request id that the source copies into it.

## Model

| member | source | states |
|---|---|---|
| FirewallRules.MatchesPerField | scripts/firewall.py:127-137 | a rule meets the criteria iff every field's criterion is unset or equals that field; a rule lacking a field never meets a criterion set on it |
| FirewallRules.Narrow | scripts/firewall.py:127-137 | adding a criterion on one field sets that field and leaves the other four criteria as they were |
| FirewallRules.Keep | scripts/firewall.py:127-137 | one filter stage keeps every copy of each rule whose field is present and equal to the criterion and no copy of any other, as a subsequence (order kept, nothing added or altered) |
| FirewallRules.Select | scripts/firewall.py:127-137 | the reference query keeps every copy of each rule meeting all set criteria and no copy of any other, as a subsequence of its input |
| FirewallRules.StageNarrows | scripts/firewall.py:127-137 | one guarded stage on a field not yet constrained turns the conjunctive query into the one with that criterion added, or leaves it as it is when the criterion is unset |
| FirewallRules.StagesEqualSelect | scripts/firewall.py:127-137 | the five guarded stages (`Stage`, the `is not None` guard around one `filter`) in source order (protocol, port, CIDR block, action, description) equal the single conjunctive filter |
| FirewallRules.Take | scripts/firewall.py:116-123 | the fetched page holds at most `n` rules and is a prefix of the rule set, all of it when it fits |
| FirewallRules.Remove | scripts/firewall.py:178-185 | after a bulk delete no copy of a listed rule remains, every copy of an unlisted rule remains, and the survivors keep their order |
| FirewallRules.SelectRemovePartition | scripts/firewall.py:178-187 | deleting a query's matches splits the rule set's copies between matches and survivors, so the survivors number the rules minus the matches |
| FirewallRules.SelectSkip | scripts/firewall.py:127-137 | rules in front that meet no criterion add nothing to the query of what follows them |
| FirewallRules.RemoveDisjoint | scripts/firewall.py:178-185 | a bulk delete of rules none of which is in the rule set leaves it as it was |
| FirewallRules.RemoveDropsSuffix | scripts/firewall.py:178-185 | rules at the back that are all listed for deletion leave nothing behind, whatever precedes them |
| FirewallRules.RemoveCovered | scripts/firewall.py:178-185 | deleting a list that covers the whole rule set leaves it empty |
| FirewallRules.SelectWildcard | scripts/firewall.py:127-137 | with every criterion unset the query returns the fetched set unchanged |
| FirewallRules.NoneSelected | scripts/firewall.py:127-137 | the query is empty iff no fetched rule meets the criteria (both directions) |
| FirewallRules.KeepNarrows | scripts/firewall.py:127-137 | one more filter stage on top of the conjunctive query equals the conjunctive query with that criterion added |
| FirewallRules.KeepCommutes | scripts/firewall.py:127-137 | any two filter stages commute, so the order of the five stages does not matter |
| FirewallRules.BeyondPageIgnored | scripts/firewall.py:116-119 | rules past the first page never change the query's result |
| Lighthouse.Instance.DescribeFirewallRules | scripts/firewall.py:113-124 | the describe call returns the first `limit` rules and its request id, or the raised error, and changes nothing |
| Lighthouse.Instance.CreateFirewallRules | scripts/firewall.py:75-93 | a successful create appends the given rules; a failed one raises its error and changes nothing |
| Lighthouse.Instance.DeleteFirewallRules | scripts/firewall.py:175-185 | a successful delete removes the listed rules and keeps the rest in order; a failed one changes nothing |
| Firewall.DuplicateCriteria | scripts/firewall.py:49 | the duplicate check constrains protocol, port, source and action and never description: a rule passes iff those four fields equal the request's |
| Firewall.NewRule | scripts/firewall.py:78-89 | the created rule carries the request's description and passes the duplicate check of every request with the same four key fields |
| Firewall.AddOutcome | scripts/firewall.py:49-97 | add never alters or removes existing rules and adds at most one, which is the requested rule and only when no rule on the first page matched the duplicate check |
| Firewall.DelOutcome | scripts/firewall.py:154-189 | delete leaves a subsequence of the rule set, keeps every copy of each rule not meeting the criteria, and when the set fits in one page its "Deleted N" count is exactly the number of rules removed |
| Firewall.ListFirewallRules | scripts/firewall.py:100-141 | the five successive guarded filters on the 100-rule page equal the single conjunctive filter of that page; a failed fetch is returned as its error |
| Firewall.AddFirewallRule | scripts/firewall.py:40-97 | the reply and the new rule set are exactly those of the add specification |
| Firewall.DelFirewallRule | scripts/firewall.py:145-189 | the reply and the new rule set are exactly those of the delete specification |
| Properties.AddQueryFailurePropagates | scripts/firewall.py:49-53 | a failed query is returned by add unchanged, with no create attempted |
| Properties.DeleteQueryFailurePropagates | scripts/firewall.py:154-158 | a failed query is returned by delete unchanged, with no delete attempted |
| Properties.AddFailureChangesNothing | scripts/firewall.py:70-97 | any add failure is one of the remote's own errors and leaves the rule set as it was |
| Properties.DeleteFailureChangesNothing | scripts/firewall.py:170-189 | any delete failure is one of the remote's own errors and leaves the rule set as it was |
| Properties.AddCreateFailurePropagates | scripts/firewall.py:93-97 | with no match on the page, a raised create is returned by add as its failure and nothing is created |
| Properties.DeleteRemoteFailurePropagates | scripts/firewall.py:185-189 | with a match on the page, a raised delete is returned by delete as its failure and nothing is deleted |
| Properties.AddCreatesAtMostOne | scripts/firewall.py:78-95 | add either leaves the rule set unchanged without reporting a creation, or appends exactly the requested rule and reports "Add 1 rules" |
| Properties.AddIgnoresDescription | scripts/firewall.py:48-67 | a listed rule equal on protocol, port, source and action, whatever its description, makes add report "already exists" and create nothing |
| Properties.AddCreatesWhenAbsent | scripts/firewall.py:69-95 | with no match on the page, a successful add appends one rule carrying all five fields, description included |
| Properties.AddTwiceCreatesOnce | scripts/firewall.py:49-95 | below 100 rules, after a successful add, the same add (any description) reports "already exists" and changes nothing |
| Properties.AddAtPageLimitDuplicates | scripts/firewall.py:116-119 | with 100 or more rules present and no match on the first page, the first add appends the rule past the page, so a repeated add appends a second copy |
| Properties.DeleteNoMatchIsNoop | scripts/firewall.py:161-167 | when no rule on the page matches, delete reports "No rules matched" and changes nothing |
| Properties.DeleteRemovesExactlyMatched | scripts/firewall.py:178-187 | a delete that matches removes exactly the matched rules, reports their number, and leaves every copy of every non-matching rule in place and in order |
| Properties.DeleteTwiceIsNoop | scripts/firewall.py:154-187 | up to 100 rules, after a successful delete the same delete reports "No rules matched" and changes nothing |
| Properties.DeleteWildcardClearsAll | scripts/firewall.py:154-185 | a delete with no criterion set removes every rule when the set fits in one page |
| Properties.DeleteMissesBeyondPage | scripts/firewall.py:116-119 | a matching rule behind 100 non-matching ones is not seen, and delete reports "No rules matched" |
| Properties.FirstDeletePastPage | scripts/firewall.py:116-119 | in a 101-rule set with TCP rules first and last, a delete of every TCP rule sees only the first one and reports "Deleted 1 rules" |
| Properties.SecondDeletePastPage | scripts/firewall.py:154-187 | once the first TCP rule is gone the last one is on the page, and the same delete removes it, again reporting "Deleted 1 rules" |
| Properties.DeleteTwicePastPage | scripts/firewall.py:116-119 | past the page limit delete is not idempotent: repeating a successful delete of every TCP rule deletes another one |

## Left out

- `get_internet_ip` (scripts/firewall.py:21-37): HTTP calls to an IP-echo service, outside this model.
- `main` (scripts/firewall.py:192-330): argument parsing, the "dynamic" source substitution, JSON
  printing and the exit code. This is command-line glue. A failed IP lookup would hand `None`
  to add as the source. That path belongs to `main`, and add is modelled with the `str`
  parameters its signature declares.
- SDK client construction, the fixed region, credential signing and JSON (de)serialisation are
  foreign library calls. The three remote calls are abstract methods of `Lighthouse.Instance`, and
  their success and request ids are `Response` parameters.
- The remote's behaviour is not visible in the source. The model makes three assumptions about it, and
  the lemmas about idempotence and the page limit depend on them:
  - a created rule is appended at the end of the rule set;
  - a created rule is listed back with exactly the five strings sent, with no normalisation by the
    remote (`AddTwiceCreatesOnce` relies on this);
  - a bulk delete removes every rule equal to a listed one, including equal copies past the first
    page (`Lighthouse.Instance.DeleteFirewallRules`, through `Remove`).
- Rule objects carry only the five modelled fields. Other keys the API may return, and the
  `TotalCount` of the describe response, are not modelled.
- The default arguments of `add_firewall_rule` (`action="ACCEPT"`, `description="[Created by Tencent
  SDK]"`, scripts/firewall.py:46-47) are not modelled: `AddRequest` always carries all five fields.
  `main` always passes all five, so no behaviour reachable from the command line is lost.
- The exact wording of the "already exists" message (scripts/firewall.py:60-65) is modelled as the
  tag `AlreadyExists` carrying the four quoted values.
