/**
 The rule-formatter registry of bad_request.go: a fixed table from rule
 names to formatters that turn a field name and the rule's parameters into
 the user-facing description of a field violation.
 */
module Rules {
  import opened GoText

  /** The formatters the registry holds, one per key. */
  datatype Rule =
    | Required | Max | Min | Numeric
    | Gt | Gte | Eq | Lt | Lte
    | OneOf | Invalid
  {
    /** The formatters that read `params[0]`; the source indexes it
        unchecked, so calling one of them with no parameters panics. */
    predicate NeedsParam() {
      this in {Max, Min, Gt, Gte, Eq, Lt, Lte, OneOf}
    }
  }

  /** The name each formatter is registered under. */
  function Key(rule: Rule): string {
    match rule
    case Required => "required"
    case Max => "max"
    case Min => "min"
    case Numeric => "numeric"
    case Gt => "gt"
    case Gte => "gte"
    case Eq => "eq"
    case Lt => "lt"
    case Lte => "lte"
    case OneOf => "oneof"
    case Invalid => "invalid"
  }

  /** The registry itself, fixed at start-up and never changed. */
  const Registry: map<string, Rule> := map[
    "required" := Required,
    "max" := Max,
    "min" := Min,
    "numeric" := Numeric,
    "gt" := Gt,
    "gte" := Gte,
    "eq" := Eq,
    "lt" := Lt,
    "lte" := Lte,
    "oneof" := OneOf,
    "invalid" := Invalid
  ]

  /** Looks a rule name up, falling back to the formatter registered under
      "invalid" when the name is not a key. The lookup never fails. */
  function Lookup(name: string): (rule: Rule)
    ensures name in Registry ==> Key(rule) == name
    ensures name !in Registry ==> rule == Invalid
  {
    if name in Registry then Registry[name] else Registry["invalid"]
  }

  /** The registry's keys are exactly the rules' names. */
  lemma RegistryKeys(name: string)
    ensures name in Registry <==> exists rule :: Key(rule) == name
  {
    if name in Registry {
      assert Key(Registry[name]) == name;
    }
  }

  /** Every formatter is found again under its own name. */
  lemma LookupKey(rule: Rule)
    ensures Lookup(Key(rule)) == rule
  {
  }

  // The formatters, one per entry of the registry. Each takes the field
  // name and the rule's parameters; those that read `params[0]` need one.

  function RequiredText(field: string, params: seq<string>): string {
    field + " can't be blank"
  }

  function MaxText(field: string, params: seq<string>): string
    requires |params| >= 1
  {
    var count := params[0];
    if count == "1" then field + " is too long (maximum is " + count + " character)"
    else field + " is too long (maximum is " + count + " character)"
  }

  function MinText(field: string, params: seq<string>): string
    requires |params| >= 1
  {
    var count := params[0];
    if count == "1" then field + " is too short (minimum is " + count + " characters"
    else field + " is too short (minimum is " + count + " characters)"
  }

  function NumericText(field: string, params: seq<string>): string {
    field + " is not a number"
  }

  function GtText(field: string, params: seq<string>): string
    requires |params| >= 1
  {
    field + " must be greater than " + params[0]
  }

  function GteText(field: string, params: seq<string>): string
    requires |params| >= 1
  {
    field + " must be greater than or equal to " + params[0]
  }

  function EqText(field: string, params: seq<string>): string
    requires |params| >= 1
  {
    field + " must be equal to " + params[0]
  }

  function LtText(field: string, params: seq<string>): string
    requires |params| >= 1
  {
    field + " must be less than " + params[0]
  }

  function LteText(field: string, params: seq<string>): string
    requires |params| >= 1
  {
    field + " must be less than or equal to " + params[0]
  }

  function OneOfText(field: string, params: seq<string>): string
    requires |params| >= 1
  {
    field + " is not included in the list " + FormatStringSlice(Split(params[0], ' '))
  }

  function InvalidText(field: string, params: seq<string>): string {
    field + " is invalid"
  }

  /** Runs the formatter registered for `rule` on `field` and `params`. */
  function Format(rule: Rule, field: string, params: seq<string>): string
    requires rule.NeedsParam() ==> |params| >= 1
  {
    match rule
    case Required => RequiredText(field, params)
    case Max => MaxText(field, params)
    case Min => MinText(field, params)
    case Numeric => NumericText(field, params)
    case Gt => GtText(field, params)
    case Gte => GteText(field, params)
    case Eq => EqText(field, params)
    case Lt => LtText(field, params)
    case Lte => LteText(field, params)
    case OneOf => OneOfText(field, params)
    case Invalid => InvalidText(field, params)
  }

  /** Every description opens with the field name and a space, followed by
      at least one more character. */
  lemma DescriptionNamesField(rule: Rule, field: string, params: seq<string>)
    requires rule.NeedsParam() ==> |params| >= 1
    ensures field + " " < Format(rule, field, params)
  {
  }

  /** `required`, `numeric` and `invalid` give a fixed sentence about the
      field and never look at the parameters. */
  lemma ParameterlessRules(field: string, params: seq<string>)
    ensures Format(Required, field, params) == field + " can't be blank"
    ensures Format(Numeric, field, params) == field + " is not a number"
    ensures Format(Invalid, field, params) == field + " is invalid"
  {
  }

  /** A formatter reads at most the first parameter: any further ones are
      ignored, and the parameterless ones ignore all of them. */
  lemma OnlyFirstParamMatters(rule: Rule, field: string, params: seq<string>, others: seq<string>)
    requires rule.NeedsParam() ==> |params| >= 1 && |others| >= 1 && others[0] == params[0]
    ensures Format(rule, field, params) == Format(rule, field, others)
  {
  }

  /** `max` renders the same sentence, ending "character)", whatever the
      count: its singular and plural branches are identical. */
  lemma MaxIgnoresPlural(field: string, params: seq<string>)
    requires |params| >= 1
    ensures Format(Max, field, params)
         == field + " is too long (maximum is " + params[0] + " character)"
  {
  }

  /** `min` closes its parenthesis exactly when the count is not "1": the
      singular branch leaves it open. */
  lemma MinClosedUnlessOne(field: string, params: seq<string>)
    requires |params| >= 1
    ensures var text := Format(Min, field, params);
      text[|text| - 1] == ')' <==> params[0] != "1"
    ensures params[0] == "1" ==>
      Format(Min, field, params) == field + " is too short (minimum is 1 characters"
    ensures params[0] != "1" ==>
      Format(Min, field, params) == field + " is too short (minimum is " + params[0] + " characters)"
  {
  }

  /** The five comparison rules each give the field, "must be", a phrase
      fixed per rule, and the threshold. */
  lemma ComparisonTemplate(field: string, params: seq<string>)
    requires |params| >= 1
    ensures Format(Gt, field, params) == field + " must be greater than " + params[0]
    ensures Format(Gte, field, params) == field + " must be greater than or equal to " + params[0]
    ensures Format(Eq, field, params) == field + " must be equal to " + params[0]
    ensures Format(Lt, field, params) == field + " must be less than " + params[0]
    ensures Format(Lte, field, params) == field + " must be less than or equal to " + params[0]
  {
  }

  /** `oneof` splits its list on spaces and prints the pieces with `%v`,
      which puts the original list back together inside brackets. */
  lemma {:induction false} OneOfShowsList(field: string, params: seq<string>)
    requires |params| >= 1
    ensures Format(OneOf, field, params)
         == field + " is not included in the list [" + params[0] + "]"
  {
    FormatSplitOnSpace(params[0]);
  }
}
