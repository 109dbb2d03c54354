/** The client's guard-rail policy (client/policy.go), and how the operator's answers decide. */
module LocalPolicy {
  import opened Common

  datatype Policy = Auto | Confirm | Deny

  class PolicyController {
    var p: Policy

    constructor (p: Policy)
      ensures this.p == p
    {
      this.p := p;
    }

    method Get() returns (p: Policy)
      ensures p == this.p
    {
      p := this.p;
    }

    method Set(p: Policy)
      modifies this
      ensures this.p == p
    {
      this.p := p;
    }
  }

  datatype Verdict = Verdict(approved: bool, always: bool)

  /** The person at the machine, when there is a way to ask. */
  type Operator = Option<string -> Verdict>

  function Approves(memory: set<string>, operator: Operator, description: string): bool {
    description in memory || (operator.Some? && operator.value(description).approved)
  }

  function Remembered(memory: set<string>, operator: Operator, description: string): set<string> {
    if description !in memory && operator.Some? && operator.value(description) == Verdict(true, true)
    then memory + {description}
    else memory
  }

  predicate Passes(p: Policy, approved: bool) {
    p.Auto? || (p.Confirm? && approved)
  }
}
