/**
 * The data exchanged by a plan review: the revisions the user asks for,
 * the result a surface (sidebar or remote client) reports, and the result
 * handed back to the agent.
 */
module PlanReviewTypes {

  import opened Wrappers

  /** One requested revision: which part of the plan, and what to do with it. */
  datatype RequiredPlanRevision = RequiredPlanRevision(revisedPart: string, revisorInstructions: string)

  /**
   * What a surface reports. The action is kept as the string the surface
   * sent: its declared type lists `approved`, `approvedWithComments`,
   * `recreateWithChanges` and `closed`, but nothing checks that at run time.
   */
  datatype PanelResult = PanelResult(action: string, requiredRevisions: seq<RequiredPlanRevision>)

  const ActionApproved: string := "approved"
  const ActionApprovedWithComments: string := "approvedWithComments"
  const ActionRecreateWithChanges: string := "recreateWithChanges"
  const ActionClosed: string := "closed"

  /** The four statuses the agent can be told. */
  datatype ReviewStatus = Approved | ApprovedWithComments | RecreateWithChanges | Cancelled

  /** The wire name of a status. */
  function StatusName(s: ReviewStatus): string {
    match s
    case Approved => "approved"
    case ApprovedWithComments => "approvedWithComments"
    case RecreateWithChanges => "recreateWithChanges"
    case Cancelled => "cancelled"
  }

  /**
   * The result returned to the agent. The declared type also has a
   * `nextStep` field, but the coordinator never sets it, so the model
   * carries the three fields that are actually produced.
   */
  datatype ToolResult = ToolResult(status: ReviewStatus, requiredRevisions: seq<RequiredPlanRevision>, reviewId: string)

  /** The tool's input: `plan` is absent (None) when missing or not a string. */
  datatype PlanReviewInput = PlanReviewInput(plan: Option<string>, title: Option<string>)
}
