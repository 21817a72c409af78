/**
 The delivery workflow's routing table: stages, artifacts, and where each verdict leads.
 Stage and artifact names are the table's own.
 */
module StageMap {
  import opened Options

  datatype Stage =
    | BACKLOG_SYNC
    | CLARIFICATION
    | SPECIFICATION
    | SPEC_REVIEW
    | HUMAN_SPEC_APPROVAL
    | API_DESIGN
    | DB_DESIGN
    | DESIGN_REVIEW
    | IMPACT_ANALYSIS
    | IMPLEMENTATION_PLANNING
    | PLAN_REVIEW
    | HUMAN_PLAN_APPROVAL
    | TEST_WRITING
    | IMPLEMENTATION
    | IMPLEMENTATION_VERIFICATION
    | SECURITY_REVIEW
    | RECONCILIATION
    | HUMAN_PR_APPROVAL
    | PR_PREPARATION
    | READY_FOR_PR
    | COMPLETED
    | ARCHIVED

  /** Position in `stage_order`. */
  function Index(s: Stage): nat {
    match s
    case BACKLOG_SYNC => 0
    case CLARIFICATION => 1
    case SPECIFICATION => 2
    case SPEC_REVIEW => 3
    case HUMAN_SPEC_APPROVAL => 4
    case API_DESIGN => 5
    case DB_DESIGN => 6
    case DESIGN_REVIEW => 7
    case IMPACT_ANALYSIS => 8
    case IMPLEMENTATION_PLANNING => 9
    case PLAN_REVIEW => 10
    case HUMAN_PLAN_APPROVAL => 11
    case TEST_WRITING => 12
    case IMPLEMENTATION => 13
    case IMPLEMENTATION_VERIFICATION => 14
    case SECURITY_REVIEW => 15
    case RECONCILIATION => 16
    case HUMAN_PR_APPROVAL => 17
    case PR_PREPARATION => 18
    case READY_FOR_PR => 19
    case COMPLETED => 20
    case ARCHIVED => 21
  }

  datatype Kind = Automated | HumanGate | Terminal

  function KindOf(s: Stage): Kind {
    match s
    case HUMAN_SPEC_APPROVAL => HumanGate
    case HUMAN_PLAN_APPROVAL => HumanGate
    case HUMAN_PR_APPROVAL => HumanGate
    case READY_FOR_PR => HumanGate
    case COMPLETED => HumanGate
    case ARCHIVED => Terminal
    case _ => Automated
  }

  /** `next` of an automated stage, `on_approve` of a gate. */
  function Next(s: Stage): Stage
    requires s != ARCHIVED
  {
    match s
    case BACKLOG_SYNC => CLARIFICATION
    case CLARIFICATION => SPECIFICATION
    case SPECIFICATION => SPEC_REVIEW
    case SPEC_REVIEW => HUMAN_SPEC_APPROVAL
    case HUMAN_SPEC_APPROVAL => API_DESIGN
    case API_DESIGN => DB_DESIGN
    case DB_DESIGN => DESIGN_REVIEW
    case DESIGN_REVIEW => IMPACT_ANALYSIS
    case IMPACT_ANALYSIS => IMPLEMENTATION_PLANNING
    case IMPLEMENTATION_PLANNING => PLAN_REVIEW
    case PLAN_REVIEW => HUMAN_PLAN_APPROVAL
    case HUMAN_PLAN_APPROVAL => TEST_WRITING
    case TEST_WRITING => IMPLEMENTATION
    case IMPLEMENTATION => IMPLEMENTATION_VERIFICATION
    case IMPLEMENTATION_VERIFICATION => SECURITY_REVIEW
    case SECURITY_REVIEW => RECONCILIATION
    case RECONCILIATION => HUMAN_PR_APPROVAL
    case HUMAN_PR_APPROVAL => PR_PREPARATION
    case PR_PREPARATION => READY_FOR_PR
    case READY_FOR_PR => COMPLETED
    case COMPLETED => ARCHIVED
  }

  function OnReject(s: Stage): Stage
    requires KindOf(s) == HumanGate
  {
    match s
    case HUMAN_SPEC_APPROVAL => SPECIFICATION
    case HUMAN_PLAN_APPROVAL => IMPLEMENTATION_PLANNING
    case HUMAN_PR_APPROVAL => RECONCILIATION
    case READY_FOR_PR => PR_PREPARATION
    case COMPLETED => PR_PREPARATION
  }

  /** `loop_back[key]`, or `None` for a key the stage does not define. */
  function LoopBack(s: Stage, key: string): Option<Stage> {
    match s
    case SPEC_REVIEW =>
      if key == "changes_required" then Some(SPECIFICATION)
      else None
    case DESIGN_REVIEW =>
      if key == "changes_required_api" then Some(API_DESIGN)
      else if key == "changes_required_database" then Some(DB_DESIGN)
      else if key == "changes_required_both" then Some(API_DESIGN)
      else None
    case IMPACT_ANALYSIS =>
      if key == "changes_required_specification" then Some(SPECIFICATION)
      else if key == "changes_required_api" then Some(API_DESIGN)
      else if key == "changes_required_database" then Some(DB_DESIGN)
      else None
    case PLAN_REVIEW =>
      if key == "changes_required" then Some(IMPLEMENTATION_PLANNING)
      else None
    case TEST_WRITING =>
      if key == "changes_required_tests" then Some(TEST_WRITING)
      else if key == "invalid_specification" then Some(SPECIFICATION)
      else if key == "invalid_api_design" then Some(API_DESIGN)
      else if key == "invalid_database_design" then Some(DB_DESIGN)
      else None
    case IMPLEMENTATION =>
      if key == "partial" then Some(IMPLEMENTATION)
      else if key == "blocked_by_plan" then Some(IMPLEMENTATION_PLANNING)
      else None
    case IMPLEMENTATION_VERIFICATION =>
      if key == "changes_required" then Some(IMPLEMENTATION)
      else None
    case SECURITY_REVIEW =>
      if key == "changes_required" then Some(IMPLEMENTATION)
      else if key == "invalid_security_design" then Some(API_DESIGN)
      else None
    case RECONCILIATION =>
      if key == "implementation_drift" then Some(IMPLEMENTATION)
      else if key == "test_gap" then Some(TEST_WRITING)
      else if key == "plan_gap" then Some(IMPLEMENTATION_PLANNING)
      else if key == "design_gap" then Some(API_DESIGN)
      else if key == "specification_gap" then Some(SPECIFICATION)
      else if key == "story_source_conflict" then Some(BACKLOG_SYNC)
      else None
    case PR_PREPARATION =>
      if key == "stale_reconciliation" then Some(RECONCILIATION)
      else None
    case _ => None
  }

  predicate Optional(s: Stage) {
    s in {API_DESIGN, DB_DESIGN, DESIGN_REVIEW}
  }

  datatype Artifact =
    | story
    | story_catalog
    | clarification_report
    | open_decisions
    | specification
    | specification_review
    | api_design
    | openapi
    | database_design
    | entity_model
    | design_review
    | impact_analysis
    | implementation_plan
    | plan_review
    | test_strategy
    | ac_test_matrix
    | test_generation_report
    | implementation_report
    | implementation_verification
    | security_review
    | reconciliation
    | traceability
    | pr_summary
    | delivery_summary

  /** The stage whose Skill owns, and alone writes, the artifact. */
  function Owner(a: Artifact): Stage {
    match a
    case story => BACKLOG_SYNC
    case story_catalog => BACKLOG_SYNC
    case clarification_report => CLARIFICATION
    case open_decisions => CLARIFICATION
    case specification => SPECIFICATION
    case specification_review => SPEC_REVIEW
    case api_design => API_DESIGN
    case openapi => API_DESIGN
    case database_design => DB_DESIGN
    case entity_model => DB_DESIGN
    case design_review => DESIGN_REVIEW
    case impact_analysis => IMPACT_ANALYSIS
    case implementation_plan => IMPLEMENTATION_PLANNING
    case plan_review => PLAN_REVIEW
    case test_strategy => TEST_WRITING
    case ac_test_matrix => TEST_WRITING
    case test_generation_report => TEST_WRITING
    case implementation_report => IMPLEMENTATION
    case implementation_verification => IMPLEMENTATION_VERIFICATION
    case security_review => SECURITY_REVIEW
    case reconciliation => RECONCILIATION
    case traceability => RECONCILIATION
    case pr_summary => PR_PREPARATION
    case delivery_summary => ARCHIVED
  }

  function Outputs(s: Stage): set<Artifact> {
    match s
    case BACKLOG_SYNC => {story, story_catalog}
    case CLARIFICATION => {clarification_report, open_decisions}
    case SPECIFICATION => {specification}
    case SPEC_REVIEW => {specification_review}
    case API_DESIGN => {api_design, openapi}
    case DB_DESIGN => {database_design, entity_model}
    case DESIGN_REVIEW => {design_review}
    case IMPACT_ANALYSIS => {impact_analysis}
    case IMPLEMENTATION_PLANNING => {implementation_plan}
    case PLAN_REVIEW => {plan_review}
    case TEST_WRITING => {test_strategy, ac_test_matrix, test_generation_report}
    case IMPLEMENTATION => {implementation_report}
    case IMPLEMENTATION_VERIFICATION => {implementation_verification}
    case SECURITY_REVIEW => {security_review}
    case RECONCILIATION => {reconciliation, traceability}
    case PR_PREPARATION => {pr_summary}
    case ARCHIVED => {delivery_summary}
    case _ => {}
  }

  /** `inputs` of an automated stage, `required_artifacts` of a gate. */
  function Inputs(s: Stage): set<Artifact> {
    match s
    case BACKLOG_SYNC => {}
    case CLARIFICATION => {story}
    case SPECIFICATION => {story, clarification_report, open_decisions}
    case SPEC_REVIEW => {story, specification, open_decisions}
    case HUMAN_SPEC_APPROVAL => {specification, specification_review}
    case API_DESIGN => {specification, specification_review, open_decisions}
    case DB_DESIGN => {specification, api_design, openapi, open_decisions}
    case DESIGN_REVIEW => {specification, api_design, openapi, database_design, entity_model, open_decisions}
    case IMPACT_ANALYSIS =>
      {story, specification, specification_review, api_design, openapi, database_design, entity_model,
       design_review, open_decisions}
    case IMPLEMENTATION_PLANNING =>
      {story, open_decisions, specification, specification_review, api_design, openapi, database_design,
       entity_model, design_review, impact_analysis}
    case PLAN_REVIEW =>
      {story, specification, specification_review, impact_analysis, implementation_plan, api_design, openapi,
       database_design, entity_model, open_decisions}
    case HUMAN_PLAN_APPROVAL => {implementation_plan, plan_review}
    case TEST_WRITING =>
      {story, specification, api_design, openapi, database_design, impact_analysis, implementation_plan,
       plan_review}
    case IMPLEMENTATION =>
      {story, open_decisions, specification, specification_review, impact_analysis, implementation_plan,
       plan_review, api_design, openapi, database_design, entity_model, test_strategy, ac_test_matrix}
    case IMPLEMENTATION_VERIFICATION =>
      {story, specification, specification_review, impact_analysis, implementation_plan, plan_review,
       implementation_report, api_design, openapi, database_design, entity_model, test_strategy,
       ac_test_matrix}
    case SECURITY_REVIEW =>
      {story, specification, specification_review, impact_analysis, implementation_plan, plan_review,
       implementation_report, implementation_verification, api_design, openapi, database_design, entity_model,
       test_strategy, ac_test_matrix, open_decisions}
    case RECONCILIATION =>
      {story, specification, specification_review, api_design, openapi, database_design, entity_model,
       design_review, impact_analysis, implementation_plan, plan_review, test_strategy, ac_test_matrix,
       test_generation_report, implementation_report, implementation_verification, security_review,
       open_decisions}
    case HUMAN_PR_APPROVAL => {implementation_verification, security_review, reconciliation, traceability}
    case PR_PREPARATION =>
      {story, specification, impact_analysis, implementation_plan, implementation_report,
       implementation_verification, security_review, reconciliation, traceability}
    case READY_FOR_PR => {pr_summary}
    case COMPLETED => {pr_summary}
    case ARCHIVED => {}
  }

  predicate Conditional(a: Artifact) {
    a in {api_design, openapi, database_design, entity_model}
  }

  // ----- Facts about the table -----

  /** Every forward edge leads to the next stage in order. */
  lemma ForwardIsNextInOrder(s: Stage)
    requires s != ARCHIVED
    ensures Index(Next(s)) == Index(s) + 1
  {
  }

  /** Every other edge stays or goes back, by 16 stages at most. */
  lemma BackwardNeverAdvances(s: Stage, key: string)
    ensures LoopBack(s, key).Some? ==> Index(s) - 16 <= Index(LoopBack(s, key).value) <= Index(s)
    ensures KindOf(s) == HumanGate ==> Index(s) - 16 <= Index(OnReject(s)) < Index(s)
  {
  }

  lemma IndexInjective(s: Stage, t: Stage)
    requires Index(s) == Index(t)
    ensures s == t
  {
  }

  lemma OutputsAreOwned(s: Stage, a: Artifact)
    ensures a in Outputs(s) <==> Owner(a) == s
  {
  }

  /** A stage reads only what earlier stages own. */
  lemma InputsComeFromEarlier(s: Stage, a: Artifact)
    requires a in Inputs(s)
    ensures Index(Owner(a)) < Index(s)
  {
    match s
    case BACKLOG_SYNC =>
    case CLARIFICATION =>
    case SPECIFICATION =>
    case SPEC_REVIEW =>
    case HUMAN_SPEC_APPROVAL =>
    case API_DESIGN =>
    case DB_DESIGN =>
    case DESIGN_REVIEW =>
    case IMPACT_ANALYSIS =>
    case IMPLEMENTATION_PLANNING =>
    case PLAN_REVIEW =>
    case HUMAN_PLAN_APPROVAL =>
    case TEST_WRITING =>
    case IMPLEMENTATION =>
    case IMPLEMENTATION_VERIFICATION =>
    case SECURITY_REVIEW =>
    case RECONCILIATION =>
    case HUMAN_PR_APPROVAL =>
    case PR_PREPARATION =>
    case READY_FOR_PR =>
    case COMPLETED =>
    case ARCHIVED =>
  }

  /** The loop-backs that lead to a stage, read column by column. */
  predicate LeadsBackTo(t: Stage, s: Stage, key: string) {
    match t
    case BACKLOG_SYNC => key == "story_source_conflict" && s == RECONCILIATION
    case SPECIFICATION =>
      || (key == "changes_required" && s == SPEC_REVIEW)
      || (key == "changes_required_specification" && s == IMPACT_ANALYSIS)
      || (key == "invalid_specification" && s == TEST_WRITING)
      || (key == "specification_gap" && s == RECONCILIATION)
    case API_DESIGN =>
      || (key == "changes_required_api" && s in {DESIGN_REVIEW, IMPACT_ANALYSIS})
      || (key == "changes_required_both" && s == DESIGN_REVIEW)
      || (key == "invalid_api_design" && s == TEST_WRITING)
      || (key == "invalid_security_design" && s == SECURITY_REVIEW)
      || (key == "design_gap" && s == RECONCILIATION)
    case DB_DESIGN =>
      || (key == "changes_required_database" && s in {DESIGN_REVIEW, IMPACT_ANALYSIS})
      || (key == "invalid_database_design" && s == TEST_WRITING)
    case IMPLEMENTATION_PLANNING =>
      || (key == "changes_required" && s == PLAN_REVIEW)
      || (key == "blocked_by_plan" && s == IMPLEMENTATION)
      || (key == "plan_gap" && s == RECONCILIATION)
    case TEST_WRITING =>
      || (key == "changes_required_tests" && s == TEST_WRITING)
      || (key == "test_gap" && s == RECONCILIATION)
    case IMPLEMENTATION =>
      || (key == "partial" && s == IMPLEMENTATION)
      || (key == "changes_required" && s in {IMPLEMENTATION_VERIFICATION, SECURITY_REVIEW})
      || (key == "implementation_drift" && s == RECONCILIATION)
    case RECONCILIATION => key == "stale_reconciliation" && s == PR_PREPARATION
    case _ => false
  }

  lemma WaysBackAgree(s: Stage, key: string, t: Stage)
    ensures LoopBack(s, key) == Some(t) <==> LeadsBackTo(t, s, key)
  {
    if LoopBack(s, key) == Some(t) {
      WayBackIsListed(s, key);
    }
    if LeadsBackTo(t, s, key) {
      ListedWayBack(s, key, t);
    }
  }

  lemma WayBackIsListed(s: Stage, key: string)
    requires LoopBack(s, key).Some?
    ensures LeadsBackTo(LoopBack(s, key).value, s, key)
  {
  }

  lemma ListedWayBack(s: Stage, key: string, t: Stage)
    requires LeadsBackTo(t, s, key)
    ensures LoopBack(s, key) == Some(t)
  {
    if Index(t) < 9 {
      ListedWayToDesign(s, key, t);
    } else {
      ListedWayToDelivery(s, key, t);
    }
  }

  lemma ListedWayToDesign(s: Stage, key: string, t: Stage)
    requires LeadsBackTo(t, s, key) && Index(t) < 9
    ensures LoopBack(s, key) == Some(t)
  {
  }

  lemma ListedWayToDelivery(s: Stage, key: string, t: Stage)
    requires LeadsBackTo(t, s, key) && Index(t) >= 9
    ensures LoopBack(s, key) == Some(t)
  {
  }

  /** A rejected gate goes back to the owner of an artifact it required. */
  lemma RejectedArtifact(gate: Stage) returns (a: Artifact)
    requires KindOf(gate) == HumanGate
    ensures a in Inputs(gate) && Owner(a) == OnReject(gate)
  {
    match gate
    case HUMAN_SPEC_APPROVAL => a := specification;
    case HUMAN_PLAN_APPROVAL => a := implementation_plan;
    case HUMAN_PR_APPROVAL => a := reconciliation;
    case READY_FOR_PR => a := pr_summary;
    case COMPLETED => a := pr_summary;
  }

  /** The artifact a loop-back to this stage is about. */
  function MainOutput(t: Stage): Artifact {
    match t
    case BACKLOG_SYNC => story
    case SPECIFICATION => specification
    case API_DESIGN => api_design
    case DB_DESIGN => database_design
    case IMPLEMENTATION_PLANNING => implementation_plan
    case TEST_WRITING => test_strategy
    case IMPLEMENTATION => implementation_report
    case _ => reconciliation
  }

  /** A loop-back to another stage goes to the owner of an artifact that was read. */
  lemma LoopBackArtifact(s: Stage, key: string) returns (a: Artifact)
    requires LoopBack(s, key).Some? && LoopBack(s, key).value != s
    ensures a in Inputs(s) && Owner(a) == LoopBack(s, key).value
  {
    var t := LoopBack(s, key).value;
    WayBackIsListed(s, key);
    a := MainOutput(t);
  }
}
