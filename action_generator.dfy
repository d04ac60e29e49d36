/** Action generation: which actions the explorer tries on an element. A list of configs
    is searched, custom ones first (latest added first) and then the four defaults for
    buttons, inputs, select boxes and text areas; the first config that matches the
    element generates the actions. */
module ActionGeneration {
  import opened Wrappers
  import opened Identifiers
  import opened Actions
  import opened Seqs

  /** Whether a regular expression matches the whole of a text. Regular-expression
      semantics are not modelled: the test is a parameter. */
  type FullMatch = (string, string) -> bool

  // ---------------------------------------------------------------------------
  // MultiCriterionActionGeneratorConfig

  /** The six optional patterns; an absent one is not checked. */
  datatype Criteria = Criteria(tag: Option<string>, id: Option<string>, name: Option<string>,
                               className: Option<string>, text: Option<string>, inputType: Option<string>)

  const NoCriteria := Criteria(None, None, None, None, None, None)

  /** One criterion: absent, or the element's value is non-empty and matches it. */
  predicate CriterionHolds(pattern: Option<string>, value: Option<string>, fullMatch: FullMatch) {
    pattern.None? || (NonEmpty(value) && fullMatch(pattern.value, value.value))
  }

  /** One link of the chain of checks: `None` when the criterion is set but the element's
      value is null or empty (the check returns false at once), else the running result. */
  function CheckCriterion(pattern: Option<string>, value: Option<string>, isMatch: bool, fullMatch: FullMatch): Option<bool> {
    if pattern.None? then Some(isMatch)
    else if NonEmpty(value) then Some(isMatch && fullMatch(pattern.value, value.value))
    else None
  }

  /** `matches`: the criteria are checked in turn (tag, id, name, class, text, type). The
      result is the conjunction of every criterion that is set; a set criterion whose
      attribute is null or empty fails even when its pattern would match the empty text;
      with no criterion set, everything matches. */
  function MultiCriterionMatches(c: Criteria, e: Element, fullMatch: FullMatch): (r: bool)
    ensures r <==> CriterionHolds(c.tag, Some(e.tagName), fullMatch)
                   && CriterionHolds(c.id, GetAttribute(e, "id"), fullMatch)
                   && CriterionHolds(c.name, GetAttribute(e, "name"), fullMatch)
                   && CriterionHolds(c.className, GetAttribute(e, "class"), fullMatch)
                   && CriterionHolds(c.text, Some(e.text), fullMatch)
                   && CriterionHolds(c.inputType, GetAttribute(e, "type"), fullMatch)
    ensures c == NoCriteria ==> r
  {
    var tag := CheckCriterion(c.tag, Some(e.tagName), true, fullMatch);
    if tag.None? then false else
    var id := CheckCriterion(c.id, GetAttribute(e, "id"), tag.value, fullMatch);
    if id.None? then false else
    var name := CheckCriterion(c.name, GetAttribute(e, "name"), id.value, fullMatch);
    if name.None? then false else
    var className := CheckCriterion(c.className, GetAttribute(e, "class"), name.value, fullMatch);
    if className.None? then false else
    var text := CheckCriterion(c.text, Some(e.text), className.value, fullMatch);
    if text.None? then false else
    var inputType := CheckCriterion(c.inputType, GetAttribute(e, "type"), text.value, fullMatch);
    if inputType.None? then false else inputType.value
  }

  /** A config that sets one more criterion matches no more elements than before. */
  lemma MoreCriteriaMatchLess(c: Criteria, e: Element, fullMatch: FullMatch, pattern: string)
    requires c.id.None?
    ensures MultiCriterionMatches(c.(id := Some(pattern)), e, fullMatch) ==> MultiCriterionMatches(c, e, fullMatch)
    ensures !NonEmpty(GetAttribute(e, "id")) ==> !MultiCriterionMatches(c.(id := Some(pattern)), e, fullMatch)
  {
  }

  // ---------------------------------------------------------------------------
  // The configs.

  /** The widgets the default configs handle. */
  datatype Widget = Button | Input | SelectBox | TextArea

  /** The tag each default config is created with. */
  function WidgetTag(w: Widget): string {
    match w
    case Button => "button"
    case Input => "input"
    case SelectBox => "select"
    case TextArea => "textarea"
  }

  datatype Config =
    /** A multi-criterion config; `generate` is what its subclass generates. */
    | MultiCriterion(criteria: Criteria, generate: ElementWithIdentifier -> set<Action>)
    /** Matches when both match; generates both sets of actions. */
    | Composite(first: Config, second: Config)
    /** One of the default configs, which match on the tag alone. */
    | Default(widget: Widget)
    /** Any other config. */
    | Custom(accepts: ElementWithIdentifier -> bool, generate: ElementWithIdentifier -> set<Action>)

  function Matches(config: Config, e: ElementWithIdentifier, fullMatch: FullMatch): bool {
    match config
    case MultiCriterion(criteria, _) => MultiCriterionMatches(criteria, e.element, fullMatch)
    case Composite(first, second) => Matches(first, e, fullMatch) && Matches(second, e, fullMatch)
    case Default(w) => MultiCriterionMatches(NoCriteria.(tag := Some(WidgetTag(w))), e.element, fullMatch)
    case Custom(accepts, _) => accepts(e)
  }

  function Generate(config: Config, e: ElementWithIdentifier): set<Action> {
    match config
    case MultiCriterion(_, generate) => generate(e)
    case Composite(first, second) => Generate(first, e) + Generate(second, e)
    case Default(w) => DefaultActions(w, e)
    case Custom(_, generate) => generate(e)
  }

  /** A composite matches exactly when both parts do, whichever comes first, and its
      actions hold every action of each part. */
  lemma CompositeIsConjunctionAndUnion(a: Config, b: Config, e: ElementWithIdentifier, fullMatch: FullMatch)
    ensures Matches(Composite(a, b), e, fullMatch) <==> Matches(a, e, fullMatch) && Matches(b, e, fullMatch)
    ensures !Matches(a, e, fullMatch) || !Matches(b, e, fullMatch) ==> !Matches(Composite(a, b), e, fullMatch)
    ensures Matches(Composite(a, b), e, fullMatch) == Matches(Composite(b, a), e, fullMatch)
    ensures Generate(a, e) <= Generate(Composite(a, b), e) && Generate(b, e) <= Generate(Composite(a, b), e)
    ensures Generate(Composite(a, b), e) == Generate(Composite(b, a), e)
    ensures forall x :: x in Generate(Composite(a, b), e) ==> x in Generate(a, e) || x in Generate(b, e)
  {
  }

  // ---------------------------------------------------------------------------
  // The default widget actions.

  function Click(e: ElementWithIdentifier): Action {
    Action(ActionKind.Click(e.identifier), false)
  }

  /** `createDefaultTextWidgetActions`: set the text "TESTING". */
  function TextWidgetAction(identifier: Identifier): Action {
    Action(SetText(identifier, "TESTING"), false)
  }

  function SelectOption(identifier: Identifier, index: int): Action {
    Action(Select(identifier, index), false)
  }

  /** The select actions for the first `n` options. */
  function SelectActions(identifier: Identifier, n: nat): (r: set<Action>)
    ensures forall i :: SelectOption(identifier, i) in r <==> 0 <= i < n
    ensures forall a :: a in r ==> a.kind.Select? && a.kind.target == identifier && 0 <= a.kind.optionIndex < n
  {
    set i | 0 <= i < n :: SelectOption(identifier, i)
  }

  /** `createDefaultSelectWidgetActions`: one select action per index below `numActions`,
      in order. */
  method CreateDefaultSelectWidgetActions(identifier: Identifier, numActions: nat) returns (actions: seq<Action>)
    ensures |actions| == numActions
    ensures forall i :: 0 <= i < numActions ==> actions[i] == SelectOption(identifier, i)
    ensures forall a :: a in actions <==> a in SelectActions(identifier, numActions)
  {
    actions := [];
    for i := 0 to numActions
      invariant |actions| == i
      invariant forall j :: 0 <= j < i ==> actions[j] == SelectOption(identifier, j)
    {
      actions := actions + [SelectOption(identifier, i)];
    }
    forall a | a in SelectActions(identifier, numActions) ensures a in actions {
      var i := a.kind.optionIndex;
      assert actions[i] == a;
    }
  }

  /** The button default: a click exactly when the role is "button" and aria-disabled is
      absent or "false". */
  function ButtonActions(e: ElementWithIdentifier): (r: set<Action>)
    ensures r == {} || r == {Click(e)}
    ensures r == {Click(e)} <==>
              GetAttribute(e.element, "role") == Some("button")
              && (GetAttribute(e.element, "aria-disabled").None? || GetAttribute(e.element, "aria-disabled") == Some("false"))
  {
    var role := GetAttribute(e.element, "role");
    var ariaDisabled := GetAttribute(e.element, "aria-disabled");
    if role == Some("button") && (ariaDisabled.None? || ariaDisabled == Some("false")) then {Click(e)} else {}
  }

  /** The input default, by the type attribute: submit, checkbox and radio are clicked,
      text and password get the text action, any other type gets nothing. */
  function InputActions(e: ElementWithIdentifier): (r: set<Action>)
    ensures var t := GetAttribute(e.element, "type");
            (t in {Some("submit"), Some("checkbox"), Some("radio")} <==> r == {Click(e)})
            && (t in {Some("text"), Some("password")} <==> r == {TextWidgetAction(e.identifier)})
            && (r == {} <==> t !in {Some("submit"), Some("checkbox"), Some("radio"), Some("text"), Some("password")})
  {
    var t := GetAttribute(e.element, "type");
    if t == Some("submit") then {Click(e)}
    else if t == Some("text") || t == Some("password") then {TextWidgetAction(e.identifier)}
    else if t == Some("checkbox") || t == Some("radio") then {Click(e)}
    else {}
  }

  /** The number of select actions as written: one because the option count is at least
      zero, which always holds, and one more when there is at least one option. */
  function SelectActionCountAsWritten(optionCount: nat): (n: nat)
    ensures 1 <= n <= 2
    ensures n == 2 <==> optionCount >= 1
  {
    var numActions := 0;
    var numActions := if optionCount >= 0 then numActions + 1 else numActions;
    if optionCount >= 1 then numActions + 1 else numActions
  }

  /** As written, a select box with no option gets a select action for index 0 and one
      with a single option a select action for index 1: neither option exists. */
  lemma SelectActionsAsWrittenOutOfRange(identifier: Identifier)
    ensures SelectOption(identifier, 0) in SelectActions(identifier, SelectActionCountAsWritten(0))
    ensures SelectOption(identifier, 1) in SelectActions(identifier, SelectActionCountAsWritten(1))
    ensures exists a :: a in SelectActions(identifier, SelectActionCountAsWritten(1)) && a.kind.optionIndex >= 1
  {
    assert SelectOption(identifier, 1) in SelectActions(identifier, SelectActionCountAsWritten(1));
  }

  /** The number of select actions as intended: each of the first two options, as far as
      the select box has them. */
  function SelectActionCount(optionCount: nat): (n: nat)
    ensures n <= optionCount && n <= 2
    ensures n == 2 || n == optionCount
  {
    if optionCount >= 2 then 2 else optionCount
  }

  /** With the intended count, every select action names an existing option, and the
      first two options (as far as they exist) are all selected. */
  lemma SelectActionsInRange(identifier: Identifier, optionCount: nat)
    ensures forall a :: a in SelectActions(identifier, SelectActionCount(optionCount)) ==> 0 <= a.kind.optionIndex < optionCount
    ensures forall i :: 0 <= i < optionCount && i < 2 ==> SelectOption(identifier, i) in SelectActions(identifier, SelectActionCount(optionCount))
  {
  }

  /** What each default config generates. */
  function DefaultActions(w: Widget, e: ElementWithIdentifier): set<Action> {
    match w
    case Button => ButtonActions(e)
    case Input => InputActions(e)
    case SelectBox => SelectActions(e.identifier, SelectActionCount(e.element.optionCount))
    case TextArea => {TextWidgetAction(e.identifier)}
  }

  // ---------------------------------------------------------------------------
  // generateActionsForElement

  /** The defaults, in the order the generator registers them. */
  const DefaultConfigs: seq<Config> := [Default(Button), Default(Input), Default(SelectBox), Default(TextArea)]

  /** The configs in the order they are tried: the custom ones latest first, then the
      defaults. */
  function AllConfigs(customConfigs: seq<Config>): seq<Config> {
    Reverse(customConfigs) + DefaultConfigs
  }

  /** The position of the first config that matches the element, if any. */
  function FirstMatch(configs: seq<Config>, e: ElementWithIdentifier, fullMatch: FullMatch): (r: Option<nat>)
    ensures r.Some? ==> r.value < |configs| && Matches(configs[r.value], e, fullMatch)
                        && forall j :: 0 <= j < r.value ==> !Matches(configs[j], e, fullMatch)
    ensures r.None? <==> forall j :: 0 <= j < |configs| ==> !Matches(configs[j], e, fullMatch)
  {
    if configs == [] then None
    else if Matches(configs[0], e, fullMatch) then Some(0)
    else
      match FirstMatch(configs[1..], e, fullMatch)
      case None =>
        assert forall j :: 1 <= j < |configs| ==> configs[j] == configs[1..][j - 1];
        None
      case Some(k) =>
        assert forall j :: 1 <= j < |configs| ==> configs[j] == configs[1..][j - 1];
        Some(k + 1)
  }

  /** The actions of the first matching config, or none. */
  function ActionsOf(configs: seq<Config>, e: ElementWithIdentifier, fullMatch: FullMatch): set<Action> {
    match FirstMatch(configs, e, fullMatch)
    case None => {}
    case Some(i) => Generate(configs[i], e)
  }

  /** `generateActionsForElement`: nothing for a hidden or disabled element; otherwise
      the actions of the first config that matches, trying the custom configs latest
      first and then the defaults, and nothing when none matches. */
  method GenerateActionsForElement(customConfigs: seq<Config>, elementWithId: ElementWithIdentifier, fullMatch: FullMatch)
    returns (actions: set<Action>)
    ensures !elementWithId.element.displayed || !elementWithId.element.enabled ==> actions == {}
    ensures elementWithId.element.displayed && elementWithId.element.enabled ==>
              actions == ActionsOf(AllConfigs(customConfigs), elementWithId, fullMatch)
  {
    if !elementWithId.element.displayed || !elementWithId.element.enabled {
      return {};
    }
    var allConfigs := Reverse(customConfigs) + DefaultConfigs;
    for i := 0 to |allConfigs|
      invariant forall j :: 0 <= j < i ==> !Matches(allConfigs[j], elementWithId, fullMatch)
    {
      if Matches(allConfigs[i], elementWithId, fullMatch) {
        return Generate(allConfigs[i], elementWithId);
      }
    }
    return {};
  }

  /** The custom config added last among those that match wins over every earlier one and
      over the defaults. */
  lemma LatestCustomWins(customConfigs: seq<Config>, e: ElementWithIdentifier, fullMatch: FullMatch, k: nat)
    requires k < |customConfigs| && Matches(customConfigs[k], e, fullMatch)
    requires forall k' :: k < k' < |customConfigs| ==> !Matches(customConfigs[k'], e, fullMatch)
    ensures ActionsOf(AllConfigs(customConfigs), e, fullMatch) == Generate(customConfigs[k], e)
  {
    var all := AllConfigs(customConfigs);
    var n := |customConfigs|;
    assert all[n - 1 - k] == customConfigs[k];
    forall j | 0 <= j < n - 1 - k ensures !Matches(all[j], e, fullMatch) {
      assert all[j] == customConfigs[n - 1 - j];
    }
    var r := FirstMatch(all, e, fullMatch);
    assert r.Some? && r.value <= n - 1 - k;
  }

  /** Configs that do not match can be skipped: the search goes on with the rest. */
  lemma {:induction false} FirstMatchSkips(skipped: seq<Config>, rest: seq<Config>, e: ElementWithIdentifier, fullMatch: FullMatch)
    requires forall j :: 0 <= j < |skipped| ==> !Matches(skipped[j], e, fullMatch)
    ensures FirstMatch(skipped + rest, e, fullMatch)
            == match FirstMatch(rest, e, fullMatch) case None => None case Some(k) => Some(|skipped| + k)
  {
    if skipped == [] {
      assert skipped + rest == rest;
    } else {
      assert (skipped + rest)[1..] == skipped[1..] + rest;
      assert (skipped + rest)[0] == skipped[0];
      FirstMatchSkips(skipped[1..], rest, e, fullMatch);
    }
  }

  /** When no custom config matches, the defaults decide as if there were none. */
  lemma DefaultsDecideOtherwise(customConfigs: seq<Config>, e: ElementWithIdentifier, fullMatch: FullMatch)
    requires forall k :: 0 <= k < |customConfigs| ==> !Matches(customConfigs[k], e, fullMatch)
    ensures ActionsOf(AllConfigs(customConfigs), e, fullMatch) == ActionsOf(DefaultConfigs, e, fullMatch)
  {
    var reversed := Reverse(customConfigs);
    var n := |customConfigs|;
    forall j | 0 <= j < n ensures !Matches(reversed[j], e, fullMatch) {
      assert reversed[j] == customConfigs[n - 1 - j];
    }
    FirstMatchSkips(reversed, DefaultConfigs, e, fullMatch);
    var d := FirstMatch(DefaultConfigs, e, fullMatch);
    if d.Some? {
      assert (reversed + DefaultConfigs)[n + d.value] == DefaultConfigs[d.value];
    }
  }

  /** A text area with no custom config is given exactly the text action. */
  lemma TextAreaGetsText(e: ElementWithIdentifier, fullMatch: FullMatch)
    requires |e.element.tagName| > 0 && fullMatch("textarea", e.element.tagName)
    requires !fullMatch("button", e.element.tagName) && !fullMatch("input", e.element.tagName)
    requires !fullMatch("select", e.element.tagName)
    ensures ActionsOf(AllConfigs([]), e, fullMatch) == {TextWidgetAction(e.identifier)}
  {
    var others := [Default(Button), Default(Input), Default(SelectBox)];
    assert !Matches(others[0], e, fullMatch) && !Matches(others[1], e, fullMatch) && !Matches(others[2], e, fullMatch);
    assert Matches(Default(TextArea), e, fullMatch);
    assert AllConfigs([]) == others + [Default(TextArea)];
    FirstMatchSkips(others, [Default(TextArea)], e, fullMatch);
  }
}
