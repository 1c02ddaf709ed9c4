# Typed configuration store — a Dafny model

This project models the core of the `config_library` of cpp-config-ini. That core is a typed INI configuration store:

- **Values.** `TypedConfigValue<T>` holds one value of kind `int`, `double`, `std::string` or `std::vector<double>`.
- **Sections.** A `ConfigSection` maps keys to values and, separately, keys to validation rules.
- **Reader.** A `ConfigReader` maps section names to sections.
- **Rules.** The validation rules are `GreaterThanZero`, `GreaterThanOrEqualToZero`, `BetweenValues`, `InList` and `custom<T>`.
- **Text format.** `trim`, the line-by-line loader `loadConfig`, the renderer `saveConfig`, and `initialize`, which runs the defaults and then the load.

The model is functional:

- The value hierarchy and its `dynamic_pointer_cast` downcasts are a sum type (`ConfigValues.Value`).
- Sections and the store are immutable maps.
- Rules are a closed datatype, and `ValidationRules.Evaluate` is their call operator.
- A C++ exception is an `Outcomes.Outcome`: either `Normal(state)`, or `Thrown(state, error)` carrying the state *at the throw*. The library never rolls back, so a value that a rule rejects is already stored when the exception leaves `setValue`.
- The loader is a fold over the file's lines (`Loader.LoadFrom`).
- The saver is a function from the store to the text it writes (`Saver.SaveText`).

Modules:

| file | module | models |
|---|---|---|
| outcomes.dfy | `Outcomes` | errors, `Result`, `Outcome` |
| strings.dfy | `Strings` | `std::getline` splitting, separator joining, line output |
| config_value.dfy | `ConfigValues` | `TypedConfigValue<T>`, `toString`, `fromString` |
| validation_rules.dfy | `ValidationRules` | the rules and their descriptions |
| config_section.dfy | `ConfigSections` | `ConfigSection` |
| config_reader.dfy | `ConfigReaders` | `ConfigReader` accessors, the schema records |
| loader.dfy | `Loader` | `trim`, `loadConfig`, `initialize` |
| saver.dfy | `Saver` | `saveConfig` and the save-then-load round trip |

### Behaviours of the code worth knowing

The code keeps a value its rule rejects, keeps trailing `#` comments in values, does not skip empty list items, and throws on a bad line instead of falling back to a default. Each of these is stated as a lemma:

- `ConfigSections.RejectedValueStaysStored`: a rejected value stays stored.
- `Loader.CommentIsKeptInValue`: a trailing comment becomes part of the value.
- `ConfigValues.EmptyItemThrows`: an empty list item throws.
- `Loader.LoadedValueBypassesRule`: a key that already has a value is overwritten without consulting its rule, and nothing falls back to a default.
- `Loader.UnparsableNumberAbortsLoad`: text that does not parse as a number, given to a key holding an Int or a Float, aborts the whole load and leaves the store as it was.

### Numeric conversions

`std::stod`, `std::to_string` and `operator<<` on doubles are fields of `ConfigValues.Conversions` and are left uninterpreted. `stod` returns `None` where the C++ throws. Doubles are reals, used only for comparisons. `static_cast<int>` is written out as truncation toward zero.

## Model

| member | source | states |
|---|---|---|
| `ConfigValues.TruncateTowardZero` | source/config_library/config_reader.cpp:22 | The `static_cast<int>` in `fromString` drops the fraction toward zero: for x ≥ 0 the result lies in (x-1, x], and for x < 0 it lies in [x, x+1). |
| `ConfigValues.ParseItems` | source/config_library/config_reader.cpp:53-61 | The list loop finishes exactly when every item converts, and then it yields one number per item, each the one `stod` reads. On the first item that does not convert it throws `ParseFailed` with the earlier items already pushed. |
| `ConfigValues.FromText` | source/config_library/config_reader.cpp:21-61 | `fromString` never changes a value's kind. A numeric kind throws exactly when `stod` fails, and then keeps its old value. Int takes what `stod` reads truncated toward zero, and Float takes what `stod` reads. Text takes the text verbatim. FloatList succeeds exactly when every comma-separated item converts, and holds the numbers the item loop pushed, the converted prefix included when it throws. Every throw is a parse error. |
| `ConfigValues.TextRoundTrip` | source/config_library/config_reader.cpp:28-32 | For Text, `fromString(toString(v))` gives back `v` exactly, whatever the key held before. |
| `ConfigValues.FloatListRoundTrip` | source/config_library/config_reader.cpp:43-61 | A FloatList written with `,` between its elements reads back as the same list, when each element's text is non-empty, comma-free and read back by `stod` as that element. |
| `ConfigValues.EmptyFloatList` | source/config_library/config_reader.cpp:43-61 | The empty list is written as the empty text, and the empty text reads back as the empty list. |
| `ConfigValues.EmptyItemThrows` | source/config_library/config_reader.cpp:53-61 | Empty list items are not skipped: a list text whose first item reads as `x` and whose second item is empty, such as `1,,3`, throws at the empty item with the list already holding `[x]`. |
| `ConfigValues.IntTruncates` | source/config_library/config_reader.cpp:21-22 | An Int read from text keeps the integral part toward zero: 2.7 gives 2 and -2.7 gives -2. |
| `ValidationRules.TextIsReadAsNumber` | source/config_library/validation_rules.cpp:8-58 | Each numeric rule accepts a Text exactly when `stod` reads a number from it that the rule accepts as a Float. Unreadable text is rejected, never an error. |
| `ValidationRules.IntIsComparedAsReal` | source/config_library/validation_rules.cpp:42-48 | A numeric rule judges an Int as the number it denotes, exactly as it would judge the equal Float. |
| `ValidationRules.NumericRulesRejectLists` | source/config_library/validation_rules.cpp:8-58 | No numeric rule accepts a FloatList: the downcasts all fail and the rule answers false. |
| `ValidationRules.PositiveIsNonNegative` | source/config_library/validation_rules.cpp:8-40 | Every value `GreaterThanZero` accepts, `GreaterThanOrEqualToZero` accepts as well. Zero, as an Int or as a Float, is accepted by the second and rejected by the first. |
| `ValidationRules.BetweenIsInclusive` | source/config_library/validation_rules.cpp:42-48 | `BetweenValues(min, max)` accepts both bounds and rejects every number outside them. |
| `ValidationRules.BetweenImpliesSign` | source/config_library/validation_rules.cpp:8-58 | A range whose lower bound is ≥ 0 (resp. > 0) accepts only values `GreaterThanOrEqualToZero` (resp. `GreaterThanZero`) also accepts, for every kind of value. |
| `ValidationRules.InListAcceptsListedText` | source/config_library/validation_rules.cpp:66-69 | `InList` accepts a value exactly when it is a Text equal to one of the allowed strings. |
| `ValidationRules.CustomIsKindGuarded` | source/config_library/validation_rules.hpp:23-29 | `custom<T>` rejects every value whose kind is not `T`. On a value of kind `T` it answers exactly what the check answers on the payload. |
| `ValidationRules.InListDescriptionShape` | source/config_library/validation_rules.cpp:71-79 | The `InList` description is `Must be one of: ` followed by the entries with `, ` between them and no trailing separator. One more entry appends `, ` and that entry. |
| `ConfigSections.SetValue` | source/config_library/config_reader.cpp:70-99 | `setValue` stores the value under the key, replacing an entry of another kind. It leaves every other key and every rule alone. It throws a validation error exactly when the key has a rule that rejects the new value, and the value is stored even then. |
| `ConfigSections.GetValue` | source/config_library/config_reader.cpp:101-111 | `getValue<T>` returns the stored value exactly when the key is present and holds a `T`, and otherwise fails with key-not-found-or-type-mismatch. |
| `ConfigSections.SetValidationRule` | source/config_library/config_reader.cpp:117-119 | Installing a rule replaces only that key's rule and leaves every value untouched. |
| `ConfigSections.HasKeyIffReadable` | source/config_library/config_reader.cpp:113-115 | `hasKey` holds exactly when some kind can be read from the key. |
| `ConfigSections.SetThenGet` | source/config_library/config_reader.cpp:71-111 | After `setValue`, reading the key back with the value's kind gives the value, whether or not the rule threw. Every other key reads as before. |
| `ConfigSections.SetReplacesKind` | source/config_library/config_reader.cpp:74-84 | Setting a value of another kind replaces the entry, so the old kind no longer reads. |
| `ConfigSections.SetWithoutRuleSucceeds` | source/config_library/config_reader.cpp:86-90 | With no rule for the key, `setValue` never throws. |
| `ConfigSections.SetKeepsConsistency` | source/config_library/config_reader.cpp:86-90 | A `setValue` that does not throw keeps every key that has a rule holding a value the rule accepts. |
| `ConfigSections.RejectedValueStaysStored` | source/config_library/config_reader.cpp:71-99 | After a rejected `setValue`, the section holds the rejected value, so it violates its own rule. |
| `ConfigSections.RuleIsNotRetroactive` | source/config_library/config_reader.cpp:117-119 | Installing a rule does not re-check the stored value: FW = 150.0 under `BetweenValues(0, 100)` stays stored. |
| `ConfigSections.RuleWithoutValue` | source/config_library/config_reader.hpp:67-69 | Values and rules are independent maps, so a key can have a rule and no value. |
| `ConfigReaders.GetValue` | source/config_library/config_reader.cpp:155-162 | `getValue<T>` on the reader fails with section-not-found for an absent section, and otherwise answers what the section's `getValue<T>` answers. |
| `ConfigReaders.HasValue` | source/config_library/config_reader.cpp:169-175 | `hasValue` holds exactly when the section exists and has a value under the key. |
| `ConfigReaders.SetValue` | source/config_library/config_reader.cpp:164-167 | `setValue` creates the section if it is missing and hands the call to that section's `setValue`: the value is stored, the section's rules stay as they were, and every other section is unchanged. It throws a validation error exactly when the section's rule for the key rejects the value. |
| `ConfigReaders.SetValidationRule` | source/config_library/config_reader.cpp:192-194 | Installing a rule through the reader creates the section if needed and sets that key's rule. Every other rule of the section, every value and every other section stay as they were. |
| `ConfigReaders.DefaultIsValidated` | source/config_library/config_reader.cpp:177-190 | `setDefaultValue` checks the rule like `setValue` does: it throws a validation error exactly when the key's rule rejects the default, and the default is stored either way. |
| `ConfigReaders.SetThenGet` | source/config_library/config_reader.cpp:155-167 | A value set through the reader reads back with its kind. Every other section, and every other key of the same section, reads as before. |
| `ConfigReaders.HasValueIffReadable` | source/config_library/config_reader.cpp:169-175 | `hasValue` holds exactly when some kind can be read through `getValue`. |
| `ConfigReaders.RuleCreatesSectionOnly` | source/config_library/config_reader.cpp:192-194 | A rule registered in a new section creates the section but no value: `hasValue` stays false. |
| `Loader.Trim` | source/config_library/config_reader.cpp:244-250 | `trim` returns a piece of its input preceded and followed only by spaces and tabs, and neither starting nor ending with one. It is empty exactly when the input is all blank. |
| `Loader.TrimPadded` | source/config_library/config_reader.cpp:244-250 | `trim` removes exactly the surrounding blanks: a blank-free-edged text wrapped in spaces and tabs trims back to itself. |
| `Loader.TrimIdempotent` | source/config_library/config_reader.cpp:244-250 | Trimming twice is trimming once. |
| `Loader.Classify` | source/config_library/config_reader.cpp:206-215 | A line is skipped exactly when it trims to empty or to a `#` comment. Otherwise it is a header exactly when it trims to `[…]`, and the name is what the brackets enclose. Any other line is ignored exactly when it holds no `=`. A key/value line yields a trimmed key and a trimmed value. |
| `Loader.ClassifyEntry` | source/config_library/config_reader.cpp:212-215 | A line that is not a comment or a header is split at its first `=`, and key and value are the two sides trimmed. |
| `Loader.ClassifyKeyValue` | source/config_library/config_reader.cpp:206-215 | `key = value` with any blanks around the key, the `=` and the value reads as exactly that key and value, for any key not starting with `#` or `[`. |
| `Loader.HeaderSelectsSection` | source/config_library/config_reader.cpp:209-210 | A line trimming to `[name]` makes `name` the current section and changes no value. |
| `Loader.SkippedLinesChangeNothing` | source/config_library/config_reader.cpp:207 | Blank lines and `#` comment lines change nothing. |
| `Loader.NoSectionNoChange` | source/config_library/config_reader.cpp:217 | Before any header, or after `[]`, no line changes the store. |
| `Loader.StoreEntry` | source/config_library/config_reader.cpp:218-222 | A key that already has a value gets the result of `fromString`: it keeps its kind, no rule is consulted, and it throws a parse error exactly when `fromString` does. A new key is stored as Text and throws a validation error exactly when its rule rejects that Text. Every other key, every rule and every other section stay as they were. |
| `Loader.LoadFromAppend` | source/config_library/config_reader.cpp:205-226 | Loading `a + b` is loading `a` and then, unless that threw, loading `b` from where `a` stopped. An exception ends the loop. |
| `Loader.LoadFromAppendThrown` | source/config_library/config_reader.cpp:205-226 | When `a` throws, `a + b` throws at the same point with the same store, and `b` is never read. |
| `Loader.NoEntriesNoChange` | source/config_library/config_reader.cpp:205-226 | A file with no key/value lines loads without error and leaves the store exactly as it was. |
| `Loader.Initialize` | source/config_library/config_reader.cpp:130-152 | Startup runs the defaults first. A throw there ends startup with that exception. A file that cannot be opened leaves the defaults in place. An opened file is then loaded over the defaults, with the outcome of that load, exceptions included. |
| `Loader.InitializeKeepsDefaults` | source/config_library/config_reader.cpp:130-152 | Startup yields exactly what `setDefaultValues` yields when the file is missing or holds no key/value line. |
| `Loader.CommentIsKeptInValue` | source/config_library/config_reader.cpp:206-221 | Trailing comments are kept: a line `key = value # comment`, with any blanks around its parts, stores a new key without a rule as the Text of the value, the blanks before the comment and the comment. `  CM   =   30.0   # cruise missile  ` is one instance for a new key. A key that already holds a number, as `CM` does in the library's sample schema, passes the same text to `stod` instead (`Loader.ExistingKeyBypassesRule`). |
| `Loader.SpacedEntry` | source/config_library/config_reader.cpp:212-215 | `key = text` with one space on each side of `=` reads back as that key and that text, for any key the loader can read. |
| `Loader.StoreNewEntry` | source/config_library/config_reader.cpp:220-221 | A key the section holds neither a value nor a rule for is stored as the Text of the line's value, and nothing throws. |
| `Loader.ApplyEntry` | source/config_library/config_reader.cpp:212-222 | A key/value line under a current section keeps the current section and leaves the store that storing the entry leaves. It throws exactly when storing throws, with the same error. |
| `Loader.BracketedLine` | source/config_library/config_reader.cpp:209-210 | `[name]` selects `name` as the current section, whatever `name` holds. |
| `Loader.ExistingKeyBypassesRule` | source/config_library/config_reader.cpp:218-219 | Loading a header and then a line for a key that already has a value overwrites it through `fromString`, whatever its rule. The load succeeds exactly when `fromString` does. |
| `Loader.LoadedValueBypassesRule` | source/config_library/config_reader.cpp:218-219 | With a key holding 500.0 under `GreaterThanZero` (`kor` in the library's example), loading a line that gives it a text `stod` reads as -5 succeeds and stores -5.0. The section is left violating its rule, with no fallback to the default. |
| `Loader.UnparsableNumberAbortsLoad` | source/config_library/config_reader.cpp:205-219 | In any store, a line such as `kor = abc`, whose text `stod` cannot read, for a key that holds an Int or a Float throws a parse error out of the loader, whatever the key's rule: the store is left exactly as it was and no later line is read. |
| `Loader.ThrowAfterHeader` | source/config_library/config_reader.cpp:205-226 | A line that throws right after its section's header ends the load: the lines after it are never read, and the store is the one at the throw. For a rule rejecting a new key, that store already holds the rejected value. |
| `Strings.Split` | source/config_library/config_reader.cpp:58 | Splitting at a delimiter, as `std::getline` does, yields no item holding the delimiter, and no items at all exactly for the empty text. |
| `Strings.SplitJoin` | source/config_library/config_reader.cpp:44-61 | Splitting a comma-joined list at `,` gives back its items, when none holds a comma and the last is non-empty. |
| `Strings.SplitUnlines` | source/config_library/config_reader.cpp:235-241 | Text written one `\n`-terminated line at a time reads back line by line as the same lines, empty ones included. |
| `Saver.EntryLineClassifies` | source/config_library/config_reader.cpp:238 | The loader reads a saved `key = text` line back as that key and that text. |
| `Saver.BlocksHaveNoNewline` | source/config_library/config_reader.cpp:235-241 | No line the saver writes holds a newline, so the file splits back into exactly the lines written. |
| `Saver.EntriesReload` | source/config_library/config_reader.cpp:237-239 | Loading the saved entries of a section adds exactly those keys, each as the Text of its `toString`. |
| `Saver.SectionReload` | source/config_library/config_reader.cpp:235-241 | Loading one saved `[name]` block adds that section, unless it has no keys, and makes it current. |
| `Saver.ReloadedIsTextCopy` | source/config_library/config_reader.cpp:235-241 | The result of reloading does not depend on the order in which the unordered maps were visited. |
| `Saver.SaveThenLoad` | source/config_library/config_reader.cpp:229-242 | For every visiting order, loading the saved text into a fresh reader gives back every section that has keys, with every key and no rules, each value as the Text of its `toString`. This holds when names, keys and value texts survive the format. |
| `Saver.TextStoreRoundTrips` | source/config_library/config_reader.cpp:229-242 | A store holding only Text values, with no rules and no empty sections, comes back from a save and a load exactly as it was. |

## Left out

- **File I/O.** Opening the file, and the open-failure paths of `loadConfig` and `saveConfig`, are not modelled. The loader takes the file's lines; a file that cannot be opened is `None` in `Loader.Initialize`. `saveConfig` is modelled as the text it writes, and its throw on a file that cannot be written is not modelled.
- **Logging and messages.** Console logging and the texts of exception messages are left out; errors are told apart by kind only.
- **Numeric text conversion.** `std::stod`, `std::to_string` and the stream output of doubles are uninterpreted parameters. No property depends on their decimal formats, and NaN and infinities are not modelled.
- **Integer width.** Ints are unbounded; 32-bit `int` overflow and the undefined behaviour of `static_cast<int>` on out-of-range doubles are not modelled.
- **Unordered-map order.** `saveConfig`'s visiting order is an input (`Saver.Listing`), because unordered-map iteration order is unspecified.
- **Sharing and copying.** `clone` and `shared_ptr` sharing are not modelled; map values in the model are already independent.
- **Read-only accessors.** `getValues` and `getSections` only expose the maps, which are the model's own fields.
- **Undefined functions.** `generateConfig`, `validateConfig` and `generateConfigFile` are declared but not defined in the code. `ConfigReaders.ConfigItem` and `ConfigReaders.SchemaSection` only record the schema's shape.
- **Subclass hooks.** `setDefaultValues` is a parameter of `Loader.Initialize`. `getConfigFilePath` is replaced by the file's lines being passed in.
- **Factories and descriptions.** The rule factories (`betweenValues`, `inList`, the global rule objects) are constructors of `ValidationRules.Rule`. `GreaterThanZero` and `GreaterThanOrEqualToZero` define no description.
- **Arbitrary `std::function` rules.** A `ValidationRule` can be any function; the model has the four library rules and `custom<T>` only.
- `ValidationRules.BetweenValuesDescription`: has no contract beyond its definition, because it is the two bounds written by an uninterpreted stream conversion.
- `ConfigReaders.SetDefaultValue`: is the same call as `setValue`. Its partner lemma is `ConfigReaders.DefaultIsValidated`.
- `ValidationRules.Evaluate`: the rules' call operators have no contract beyond their definition. Their meaning is stated by `TextIsReadAsNumber`, `IntIsComparedAsReal`, `NumericRulesRejectLists`, `PositiveIsNonNegative`, `BetweenIsInclusive`, `BetweenImpliesSign`, `InListAcceptsListedText` and `CustomIsKindGuarded`.
- `ValidationRules.CustomAccepts`: has no contract beyond its definition. `ValidationRules.CustomIsKindGuarded` states its meaning.
- `ValidationRules.InListDescription`: has no contract beyond its definition. `ValidationRules.InListDescriptionShape` states its meaning.
- `ConfigValues.ToText`: `toString` has no contract beyond its definition, because the numeric texts come from uninterpreted conversions. `ConfigValues.TextRoundTrip`, `ConfigValues.FloatListRoundTrip` and `ConfigValues.EmptyFloatList` relate it to `fromString`.
- `ConfigSections.HasKey`: has no contract beyond its definition. `ConfigSections.HasKeyIffReadable` states its meaning.
- `Loader.ApplyLine`: one loop iteration has no contract beyond its definition. `Loader.SkippedLinesChangeNothing`, `Loader.HeaderSelectsSection`, `Loader.NoSectionNoChange` and `Loader.ApplyEntry` state each of its cases.
- `Loader.LoadFrom`: the loop has no contract beyond its definition. `Loader.LoadFromAppend`, `Loader.LoadFromAppendThrown` and `Loader.NoEntriesNoChange` state how it composes and when it changes nothing.
- `Loader.Load`: has no contract beyond its definition. `Loader.Initialize`, `Loader.ExistingKeyBypassesRule`, `Loader.UnparsableNumberAbortsLoad` and `Saver.SaveThenLoad` state what it produces.
- `Saver.SaveText`: has no contract beyond its definition. `Saver.SaveThenLoad`, `Saver.TextStoreRoundTrips` and `Saver.BlocksHaveNoNewline` state what the saved text means to the loader.
