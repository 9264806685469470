/** The remote firewall API of one cloud instance, seen through its three calls. The instance's rule
    set lives remotely; this class holds it so that the effect of create and delete can be stated.
    Whether a call succeeds, and the request id it answers with, is decided by the remote and is
    passed in as a `Response`. A failing call changes nothing. */
module Lighthouse {
  import opened Wrappers
  import opened FirewallRules

  /** The error a failing SDK call raises, reshaped into its code, message and request id. */
  datatype SdkError = SdkError(code: string, message: string, requestId: string)

  /** How the remote answers one call: success with its request id, or an SDK error. */
  datatype Response = Accepted(requestId: string) | Raised(error: SdkError)

  /** A successful describe call: the rules returned and the request id. */
  datatype Listing = Listing(ruleSet: seq<Rule>, requestId: string)

  class Instance {
    /** The instance's rule set, in the order the remote lists it. */
    var rules: seq<Rule>

    constructor (initial: seq<Rule>)
      ensures rules == initial
    {
      rules := initial;
    }

    /** Lists at most `limit` rules (the first page), without changing anything. */
    method DescribeFirewallRules(limit: nat, response: Response) returns (res: Result<Listing, SdkError>)
      ensures response.Raised? ==> res == Failure(response.error)
      ensures response.Accepted? ==> res.Success? && res.value.requestId == response.requestId
      ensures response.Accepted? ==> res.value.ruleSet == Take(rules, limit)
    {
      match response
      case Raised(e) => res := Failure(e);
      case Accepted(id) => res := Success(Listing(Take(rules, limit), id));
    }

    /** Creates the given rules; they are appended to the rule set when the call succeeds. */
    method CreateFirewallRules(added: seq<Rule>, response: Response) returns (res: Result<string, SdkError>)
      modifies this
      ensures response.Raised? ==> res == Failure(response.error) && rules == old(rules)
      ensures response.Accepted? ==> res == Success(response.requestId) && rules == old(rules) + added
    {
      match response
      case Raised(e) => res := Failure(e);
      case Accepted(id) =>
        rules := rules + added;
        res := Success(id);
    }

    /** Deletes the given rules; every rule equal to one of them leaves the rule set when the call
        succeeds, and the others stay in order. */
    method DeleteFirewallRules(doomed: seq<Rule>, response: Response) returns (res: Result<string, SdkError>)
      modifies this
      ensures response.Raised? ==> res == Failure(response.error) && rules == old(rules)
      ensures response.Accepted? ==> res == Success(response.requestId) && rules == Remove(old(rules), doomed)
    {
      match response
      case Raised(e) => res := Failure(e);
      case Accepted(id) =>
        rules := Remove(rules, doomed);
        res := Success(id);
    }
  }
}
