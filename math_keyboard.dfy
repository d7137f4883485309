/**
 * The on-screen math keyboard of LatexFlow (ui/MathKeyboard.kt): what a
 * button sends to the editor when it is pressed, and the label it shows.
 *
 * A button of the keyboard library is reduced to the four attributes the
 * two decisions read: its primary action type and name, and its resource
 * type and name.
 */
module MathKeyboard {
  import opened Wrappers
  import opened KeyMapper
  import opened KeyMapperProperties

  /** The primary action types the click handler tells apart; every other type behaves alike. */
  datatype ActionType = Custom | Input | OtherAction

  /** The resource types the label function tells apart; every other type behaves alike. */
  datatype ResourceType = Text | DefinedConstant | TranslationMenuKey | TranslationCommandKey | OtherResource

  datatype KeyButton = KeyButton(
    actionType: ActionType,
    actionName: string,
    resourceType: ResourceType,
    resourceName: string)

  /** The resource names of the four editing keys. */
  const EditingKeyNames: set<string> := {"BACKSPACE_DELETE", "LEFT_ARROW", "RIGHT_ARROW", "RETURN_ENTER"}

  /** The editor commands the four editing keys send. */
  const EditorCommands: set<string> := {"BACKSPACE", "LEFT", "RIGHT", "ENTER"}

  /** The action names an input key translates into LaTeX. */
  const TranslatedNames: set<string> := {
    "sin", "cos", "tan", "asin", "acos", "atan", "log10", "ln", "sqrt", "ROOT",
    "POWA2", "POWAB", "pi", "PI", "euler", "EULER", "GEQ", "LEQ", "NOT_EQUAL_TO",
    "infinity", "INFINITY", "abs", "ABS", "degree", "DEGREE"}

  /** The defined-constant resource names that get a symbol for a label. */
  const ConstantNames: set<string> := {
    "BACKSPACE_DELETE", "RETURN_ENTER", "LEFT_ARROW", "RIGHT_ARROW", "POWA2", "POWAB",
    "ROOT", "FRACTION", "PI", "EULER", "GEQ", "LEQ", "NOT_EQUAL_TO", "INFINITY", "ABS", "DEGREE"}

  /** The translation keys that get a special label. */
  const TranslationNames: set<string> := {"asin", "acos", "atan", "log10"}

  /** A custom key: the four editing keys send their command, any other its action name. */
  function CustomSymbol(resourceName: string, actionName: string): string
  {
    match resourceName
    case "BACKSPACE_DELETE" => "BACKSPACE"
    case "LEFT_ARROW" => "LEFT"
    case "RIGHT_ARROW" => "RIGHT"
    case "RETURN_ENTER" => "ENTER"
    case _ => actionName
  }

  /** An input key: the LaTeX for a named function or symbol, otherwise the action name itself. */
  function InputLatex(actionName: string): string
  {
    match actionName
    case "sin" => "\\sin("
    case "cos" => "\\cos("
    case "tan" => "\\tan("
    case "asin" => "\\arcsin("
    case "acos" => "\\arccos("
    case "atan" => "\\arctan("
    case "log10" => "\\log_{10}("
    case "ln" => "\\ln("
    case "sqrt" | "ROOT" => "\\sqrt{"
    case "POWA2" => "^2"
    case "POWAB" => "^"
    case "pi" | "PI" => "\\pi"
    case "euler" | "EULER" => "e"
    case "GEQ" => "\\ge"
    case "LEQ" => "\\le"
    case "NOT_EQUAL_TO" => "\\ne"
    case "infinity" | "INFINITY" => "\\infty"
    case "abs" | "ABS" => "| "
    case "degree" | "DEGREE" => "^{\\circ}"
    case _ => actionName
  }

  /** The string a click hands to the editor. */
  function SymbolFor(b: KeyButton): string
  {
    match b.actionType
    case Custom => CustomSymbol(b.resourceName, b.actionName)
    case Input => InputLatex(b.actionName)
    case OtherAction => b.actionName
  }

  /** `getButtonLabel`: the text a button shows. */
  function ButtonLabel(b: KeyButton): string
  {
    match b.resourceType
    case Text => b.resourceName
    case DefinedConstant => ConstantLabel(b.resourceName)
    case TranslationMenuKey => TranslationLabel(b.resourceName)
    case TranslationCommandKey => TranslationLabel(b.resourceName)
    case OtherResource => b.resourceName
  }

  function ConstantLabel(name: string): string
  {
    match name
    case "BACKSPACE_DELETE" => "⌫"
    case "RETURN_ENTER" => "↵"
    case "LEFT_ARROW" => "←"
    case "RIGHT_ARROW" => "→"
    case "POWA2" => "x²"
    case "POWAB" => "xⁿ"
    case "ROOT" => "√"
    case "FRACTION" => "÷"
    case "PI" => "π"
    case "EULER" => "e"
    case "GEQ" => "≥"
    case "LEQ" => "≤"
    case "NOT_EQUAL_TO" => "≠"
    case "INFINITY" => "∞"
    case "ABS" => "|x|"
    case "DEGREE" => "°"
    case _ => name
  }

  function TranslationLabel(name: string): string
  {
    match name
    case "asin" => "sin⁻¹"
    case "acos" => "cos⁻¹"
    case "atan" => "tan⁻¹"
    case "log10" => "log₁₀"
    case _ => name
  }

  /** A custom key sends an editor command exactly when it is one of the four editing keys; otherwise its action name. */
  lemma CustomSends(resourceName: string, actionName: string)
    ensures resourceName in EditingKeyNames ==> CustomSymbol(resourceName, actionName) in EditorCommands
    ensures resourceName !in EditingKeyNames ==> CustomSymbol(resourceName, actionName) == actionName
  {
  }

  /** An input key changes its name exactly when the name is one of the translated ones. */
  lemma InputTranslates(actionName: string)
    ensures InputLatex(actionName) != actionName <==> actionName in TranslatedNames
  {
  }

  /** Upper- and lower-case spellings of the same function or symbol send the same LaTeX. */
  lemma InputAliasesAgree(lower: string, upper: string)
    requires (lower, upper) in {("sqrt", "ROOT"), ("pi", "PI"), ("euler", "EULER"),
      ("infinity", "INFINITY"), ("abs", "ABS"), ("degree", "DEGREE")}
    ensures InputLatex(lower) == InputLatex(upper) != lower
  {
  }

  /** Characters the key table covers, written out: letters, digits and the punctuation the input keys use. */
  predicate Typeable(s: string)
  {
    forall k :: 0 <= k < |s| ==>
      ('a' <= s[k] <= 'z') || ('0' <= s[k] <= '9') || s[k] in "\\(){}_^| "
  }

  lemma TypeableIsMapped(s: string)
    requires Typeable(s)
    ensures AllMapped(s)
  {
    forall k | 0 <= k < |s| ensures Lookup(s[k]).Some? {
      var c := s[k];
      if 'a' <= c <= 'z' {
      } else if '0' <= c <= '9' {
      } else {
        assert c in Listed;
        LookupListed(c);
      }
    }
  }

  /** The LaTeX of a translated input key. */
  lemma TranslatedTypeable(actionName: string)
    requires actionName in TranslatedNames
    ensures Typeable(InputLatex(actionName))
  {
  }

  /** `s` reaches the host in full: one keystroke per character, each the table's key for that character. */
  predicate InjectedInFull(s: string)
  {
    |Keystrokes(s)| == |s| && forall k :: 0 <= k < |s| ==> Some(Keystrokes(s)[k]) == Lookup(s[k])
  }

  lemma TypeableInjectsInFull(s: string)
    requires Typeable(s)
    ensures InjectedInFull(s)
  {
    TypeableIsMapped(s);
    KeystrokesOfMappedText(s);
  }

  /** Every LaTeX string an input key translates to reaches the host in full. */
  lemma TranslatedInjectsInFull(actionName: string)
    requires actionName in TranslatedNames
    ensures InjectedInFull(InputLatex(actionName))
  {
    TranslatedTypeable(actionName);
    TypeableInjectsInFull(InputLatex(actionName));
  }

  /** A button's label differs from its resource name exactly for the named constants and translation keys. */
  lemma LabelChanges(b: KeyButton)
    ensures ButtonLabel(b) != b.resourceName <==>
      (b.resourceType == DefinedConstant && b.resourceName in ConstantNames) ||
      ((b.resourceType == TranslationMenuKey || b.resourceType == TranslationCommandKey) &&
        b.resourceName in TranslationNames)
  {
  }

  /** Every special label is short: one to five characters. */
  lemma LabelsShort(b: KeyButton)
    requires ButtonLabel(b) != b.resourceName
    ensures 1 <= |ButtonLabel(b)| <= 5
  {
    LabelChanges(b);
  }
}
