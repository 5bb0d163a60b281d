/** The outcome records of src/Core/PolicyOutcome.cs. */
module PolicyOutcomes {
  import opened Base

  /** `PassOutcome` and `FailOutcome` are the outcomes that can also be returned
      as the outcome of a whole expression (they implement
      IExpressionEvaluationOutcome); `NotApplicableOutcome` and
      `InvalidPolicyNameOutcome` only ever describe a single policy. */
  datatype PolicyOutcome =
    | PassOutcome
    | FailOutcome(failureMessage: string)
    | NotApplicableOutcome
    | InvalidPolicyNameOutcome(policyName: string)
  {
    /** The records that implement IExpressionEvaluationOutcome. */
    predicate IsExpressionOutcome() {
      PassOutcome? || FailOutcome?
    }

    function IsSatisfied(): bool
      requires IsExpressionOutcome()
    {
      PassOutcome?
    }

    /** The `out string? message` parameter is the second component; `None`
        stands for null. */
    function IsNotSatisfied(): (bool, Option<string>)
      requires IsExpressionOutcome()
    {
      if PassOutcome? then (false, None) else (true, Some(failureMessage))
    }
  }

  const DefaultFailureMessage: string := "The policy failed, but no details are specified."

  /** `PolicyOutcome.Fail(string? failureMessage = null)`. */
  function Fail(failureMessage: Option<string>): (o: PolicyOutcome)
    ensures o.IsExpressionOutcome() && !o.IsSatisfied()
    ensures failureMessage.None? ==> o == FailOutcome(DefaultFailureMessage)
    ensures failureMessage.Some? ==> o == FailOutcome(failureMessage.value)
  {
    if failureMessage.None? then FailOutcome(DefaultFailureMessage) else FailOutcome(failureMessage.value)
  }

  /** `PolicyOutcome.InvalidPolicyName(string policyName)`. */
  function InvalidPolicyName(policyName: string): (o: PolicyOutcome)
    ensures !o.IsExpressionOutcome()
    ensures o.InvalidPolicyNameOutcome? && o.policyName == policyName
  {
    InvalidPolicyNameOutcome(policyName)
  }

  /** The contract of IExpressionEvaluationOutcome as both records implement it:
      `IsSatisfied` is the negation of `IsNotSatisfied`, the message is non-null
      exactly when `IsNotSatisfied` returns true, and it is the failure message. */
  lemma ExpressionOutcomeContract(o: PolicyOutcome)
    requires o.IsExpressionOutcome()
    ensures o.IsSatisfied() == !o.IsNotSatisfied().0
    ensures o.IsNotSatisfied().0 <==> o.IsNotSatisfied().1.Some?
    ensures o.PassOutcome? ==> o.IsSatisfied() && o.IsNotSatisfied() == (false, None)
    ensures o.FailOutcome? ==> !o.IsSatisfied() && o.IsNotSatisfied() == (true, Some(o.failureMessage))
  {
  }
}
