/** A configuration section: the values of its keys and, independently, the
    validation rules registered for its keys. A key may have a value without
    a rule or a rule without a value.
 */
module ConfigSections {
  import opened Outcomes
  import opened ConfigValues
  import opened ValidationRules

  datatype Section = Section(values: map<string, Value>, rules: map<string, Rule>)

  /** A default-constructed section, as `std::unordered_map::operator[]`
      creates it. */
  const EmptySection := Section(map[], map[])

  /** Every key that has both a value and a rule holds a value its rule
      accepts. */
  ghost predicate Consistent(conv: Conversions, sec: Section)
  {
    forall k :: k in sec.values && k in sec.rules ==> Evaluate(conv, sec.rules[k], sec.values[k])
  }

  /** `ConfigSection::setValue<T>`: the value is stored first (in place when
      the key already holds a `T`, as a fresh `TypedConfigValue<T>`
      otherwise), and only then is the key's rule, if any, consulted. A
      rejection throws, but the new value stays stored. */
  function SetValue(conv: Conversions, sec: Section, key: string, v: Value): (r: Outcome<Section>)
    ensures key in r.state.values && r.state.values[key] == v
    ensures forall k :: k != key ==> (k in r.state.values <==> k in sec.values)
    ensures forall k :: k != key && k in sec.values ==> r.state.values[k] == sec.values[k]
    ensures r.state.rules == sec.rules
    ensures r.Thrown? <==> key in sec.rules && !Evaluate(conv, sec.rules[key], v)
    ensures r.Thrown? ==> r.error == ValidationFailed
  {
    var stored := sec.(values := sec.values[key := v]);
    if key in stored.rules && !Evaluate(conv, stored.rules[key], stored.values[key])
    then Thrown(stored, ValidationFailed)
    else Normal(stored)
  }

  /** `ConfigSection::getValue<T>`: the stored value when the key is present
      and holds a `T`, and an error otherwise. */
  function GetValue(sec: Section, key: string, kind: Kind): (r: Result<Value>)
    ensures r.Success? <==> key in sec.values && sec.values[key].KindOf() == kind
    ensures r.Success? ==> r.value == sec.values[key] && r.value.KindOf() == kind
    ensures r.Failure? ==> r.error == KeyNotFoundOrTypeMismatch
  {
    if key in sec.values && sec.values[key].KindOf() == kind
    then Success(sec.values[key])
    else Failure(KeyNotFoundOrTypeMismatch)
  }

  /** `ConfigSection::hasKey`: whether the key has a value (a rule alone
      does not count). */
  function HasKey(sec: Section, key: string): bool
  {
    key in sec.values
  }

  /** `ConfigSection::setValidationRule`: installs or replaces the key's rule
      and leaves every value as it is, without checking it against the new
      rule. */
  function SetValidationRule(sec: Section, key: string, rule: Rule): (r: Section)
    ensures r.values == sec.values
    ensures key in r.rules && r.rules[key] == rule
    ensures forall k :: k != key ==> (k in r.rules <==> k in sec.rules)
    ensures forall k :: k != key && k in sec.rules ==> r.rules[k] == sec.rules[k]
  {
    sec.(rules := sec.rules[key := rule])
  }

  /** A key is present exactly when some kind can be read from it. */
  lemma HasKeyIffReadable(sec: Section, key: string)
    ensures HasKey(sec, key) <==> exists kind :: GetValue(sec, key, kind).Success?
  {
    if HasKey(sec, key) {
      assert GetValue(sec, key, sec.values[key].KindOf()).Success?;
    }
  }

  /** After `setValue`, reading the key back with the value's kind gives the
      value, whether or not the rule threw; other keys read as before. */
  lemma SetThenGet(conv: Conversions, sec: Section, key: string, v: Value, other: string, kind: Kind)
    ensures GetValue(SetValue(conv, sec, key, v).state, key, v.KindOf()) == Success(v)
    ensures other != key ==>
              GetValue(SetValue(conv, sec, key, v).state, other, kind) == GetValue(sec, other, kind)
  {
  }

  /** Storing a value of another kind replaces the entry: the old kind can no
      longer be read. */
  lemma SetReplacesKind(conv: Conversions, sec: Section, key: string, v: Value, kind: Kind)
    requires kind != v.KindOf()
    ensures GetValue(SetValue(conv, sec, key, v).state, key, kind).Failure?
  {
  }

  /** With no rule registered for the key, `setValue` always succeeds. */
  lemma SetWithoutRuleSucceeds(conv: Conversions, sec: Section, key: string, v: Value)
    requires key !in sec.rules
    ensures SetValue(conv, sec, key, v).Normal?
  {
  }

  /** A successful `setValue` keeps every key consistent with its rule. */
  lemma SetKeepsConsistency(conv: Conversions, sec: Section, key: string, v: Value)
    requires Consistent(conv, sec)
    requires SetValue(conv, sec, key, v).Normal?
    ensures Consistent(conv, SetValue(conv, sec, key, v).state)
  {
  }

  /** A rejected `setValue` leaves the section holding the rejected value:
      the state at the throw is never consistent. */
  lemma RejectedValueStaysStored(conv: Conversions, sec: Section, key: string, v: Value)
    requires SetValue(conv, sec, key, v).Thrown?
    ensures !Consistent(conv, SetValue(conv, sec, key, v).state)
    ensures GetValue(SetValue(conv, sec, key, v).state, key, v.KindOf()) == Success(v)
  {
    var s := SetValue(conv, sec, key, v).state;
    assert key in s.values && key in s.rules && !Evaluate(conv, s.rules[key], s.values[key]);
  }

  /** Installing a rule does not re-check the stored value, so it can leave
      a consistent section inconsistent. */
  lemma RuleIsNotRetroactive(conv: Conversions)
    ensures Consistent(conv, Section(map["FW" := Float(150.0)], map[]))
    ensures !Consistent(conv, SetValidationRule(Section(map["FW" := Float(150.0)], map[]),
                                                "FW", BetweenValues(0.0, 100.0)))
  {
    var s := SetValidationRule(Section(map["FW" := Float(150.0)], map[]), "FW", BetweenValues(0.0, 100.0));
    assert "FW" in s.values && "FW" in s.rules;
  }

  /** Values and rules are independent: a rule can be registered for a key
      that has no value. */
  lemma RuleWithoutValue(key: string, rule: Rule)
    ensures key in SetValidationRule(EmptySection, key, rule).rules
    ensures !HasKey(SetValidationRule(EmptySection, key, rule), key)
  {
  }
}
