/** The configuration reader's store: one map from section name to section,
    so section names are unique, and the accessors that reach a key through
    its section. Loading and saving are in the modules `Loader` and `Saver`.
 */
module ConfigReaders {
  import opened Outcomes
  import opened ConfigValues
  import opened ValidationRules
  import ConfigSections

  datatype Reader = Reader(sections: map<string, ConfigSections.Section>)

  /** A freshly constructed reader holds no sections. */
  const EmptyReader := Reader(map[])

  /** One entry of a schema section: the key, the declared type name, the
      default value as text, the description, and the rule if there is one
      (`ConfigGen::ConfigItem`). */
  datatype ConfigItem = ConfigItem(
    name: string,
    typeName: string,
    defaultValue: string,
    description: string,
    validationRule: Option<Rule>)

  /** A schema section: its name and its items, in order. */
  datatype SchemaSection = SchemaSection(name: string, items: seq<ConfigItem>)

  /** `sections[name]` where `operator[]` is used: the section, or a new
      empty one if there is none yet. */
  function SectionAt(r: Reader, name: string): ConfigSections.Section
  {
    if name in r.sections then r.sections[name] else ConfigSections.EmptySection
  }

  /** `ConfigReader::getValue<T>`: an error for an absent section, otherwise
      whatever the section's `getValue<T>` answers. */
  function GetValue(r: Reader, section: string, key: string, kind: Kind): (res: Result<Value>)
    ensures section !in r.sections ==> res == Failure(SectionNotFound)
    ensures section in r.sections ==> res == ConfigSections.GetValue(r.sections[section], key, kind)
  {
    if section in r.sections then ConfigSections.GetValue(r.sections[section], key, kind)
    else Failure(SectionNotFound)
  }

  /** `ConfigReader::hasValue`: false for an absent section, otherwise
      whether the section has the key. */
  function HasValue(r: Reader, section: string, key: string): (b: bool)
    ensures b <==> section in r.sections && key in r.sections[section].values
  {
    section in r.sections && ConfigSections.HasKey(r.sections[section], key)
  }

  /** `ConfigReader::setValue<T>`: creates the section if it is missing and
      delegates to its `setValue`, whose rejection propagates with the
      value already stored. */
  function SetValue(conv: Conversions, r: Reader, section: string, key: string, v: Value): (res: Outcome<Reader>)
    ensures res.state.sections.Keys == r.sections.Keys + {section}
    ensures forall s :: s in r.sections && s != section ==> res.state.sections[s] == r.sections[s]
    ensures res.state.sections[section] == ConfigSections.SetValue(conv, SectionAt(r, section), key, v).state
    ensures key in res.state.sections[section].values && res.state.sections[section].values[key] == v
    ensures res.state.sections[section].rules == SectionAt(r, section).rules
    ensures res.Thrown? <==> key in SectionAt(r, section).rules
                             && !Evaluate(conv, SectionAt(r, section).rules[key], v)
    ensures res.Thrown? ==> res.error == ValidationFailed
  {
    match ConfigSections.SetValue(conv, SectionAt(r, section), key, v)
    case Normal(sec) => Normal(Reader(r.sections[section := sec]))
    case Thrown(sec, e) => Thrown(Reader(r.sections[section := sec]), e)
  }

  /** `ConfigReader::setDefaultValue<T>`: the same call as `setValue`,
      including the rule check and the throw on rejection. */
  function SetDefaultValue(conv: Conversions, r: Reader, section: string, key: string, v: Value): Outcome<Reader>
  {
    SetValue(conv, r, section, key, v)
  }

  /** `ConfigReader::setValidationRule`: creates the section if it is missing
      and installs the rule there, touching no value. */
  function SetValidationRule(r: Reader, section: string, key: string, rule: Rule): (res: Reader)
    ensures res.sections.Keys == r.sections.Keys + {section}
    ensures forall s :: s in r.sections && s != section ==> res.sections[s] == r.sections[s]
    ensures res.sections[section].values == SectionAt(r, section).values
    ensures key in res.sections[section].rules && res.sections[section].rules[key] == rule
    ensures forall k :: k != key ==> (k in res.sections[section].rules <==> k in SectionAt(r, section).rules)
    ensures forall k :: k != key && k in SectionAt(r, section).rules ==>
              res.sections[section].rules[k] == SectionAt(r, section).rules[k]
  {
    Reader(r.sections[section := ConfigSections.SetValidationRule(SectionAt(r, section), key, rule)])
  }

  /** Reading a key back after setting it through the reader gives the value
      set, even when the rule threw; every other (section, key) pair reads as
      before. */
  lemma SetThenGet(conv: Conversions, r: Reader, section: string, key: string, v: Value,
                   s2: string, k2: string, kind: Kind)
    ensures GetValue(SetValue(conv, r, section, key, v).state, section, key, v.KindOf()) == Success(v)
    ensures HasValue(SetValue(conv, r, section, key, v).state, section, key)
    ensures s2 != section ==>
              GetValue(SetValue(conv, r, section, key, v).state, s2, k2, kind) == GetValue(r, s2, k2, kind)
    ensures k2 != key ==>
              GetValue(SetValue(conv, r, section, key, v).state, section, k2, kind)
              == ConfigSections.GetValue(SectionAt(r, section), k2, kind)
  {
  }

  /** A default goes through the same rule check as any other value: it
      throws exactly when the key's rule rejects it, and it is stored either
      way. A default that fails its own rule therefore stops startup. */
  lemma DefaultIsValidated(conv: Conversions, r: Reader, section: string, key: string, v: Value)
    ensures SetDefaultValue(conv, r, section, key, v).Thrown?
            <==> key in SectionAt(r, section).rules && !Evaluate(conv, SectionAt(r, section).rules[key], v)
    ensures SetDefaultValue(conv, r, section, key, v).Thrown? ==>
              SetDefaultValue(conv, r, section, key, v).error == ValidationFailed
    ensures GetValue(SetDefaultValue(conv, r, section, key, v).state, section, key, v.KindOf()) == Success(v)
  {
  }

  /** `hasValue` holds exactly when some kind can be read from the key. */
  lemma HasValueIffReadable(r: Reader, section: string, key: string)
    ensures HasValue(r, section, key) <==> exists kind :: GetValue(r, section, key, kind).Success?
  {
    if HasValue(r, section, key) {
      assert GetValue(r, section, key, r.sections[section].values[key].KindOf()).Success?;
    }
  }

  /** Registering a rule creates the section but no value: `hasValue` stays
      false for the key it was registered for on a fresh section. */
  lemma RuleCreatesSectionOnly(r: Reader, section: string, key: string, rule: Rule)
    requires section !in r.sections
    ensures section in SetValidationRule(r, section, key, rule).sections
    ensures !HasValue(SetValidationRule(r, section, key, rule), section, key)
  {
  }
}
