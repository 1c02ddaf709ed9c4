/** `ConfigReader::trim`, the line-by-line INI loader `loadConfig`, and
    `initialize`.

    The loader reads the file one `std::getline` line at a time; here it is a
    fold over the sequence of lines. A C++ exception that escapes the loop
    (a rule rejecting a new key, or `fromString` failing on an existing one)
    ends the fold with the store as it stood when the exception was thrown.
 */
module Loader {
  import opened Outcomes
  import opened ConfigValues
  import ConfigSections
  import opened ConfigReaders
  import Strings

  /** The two characters `trim` removes. */
  predicate IsBlank(c: char)
  {
    c == ' ' || c == '\t'
  }

  predicate AllBlank(s: string)
  {
    forall i :: 0 <= i < |s| ==> IsBlank(s[i])
  }

  /** Neither starts nor ends with a blank. */
  predicate Trimmed(s: string)
  {
    s == "" || (!IsBlank(s[0]) && !IsBlank(s[|s| - 1]))
  }

  /** `find_first_not_of(" \t")`, with `npos` written as `|s|`. */
  function FirstNonBlank(s: string): (b: nat)
    ensures b <= |s|
    ensures forall i :: 0 <= i < b ==> IsBlank(s[i])
    ensures b < |s| ==> !IsBlank(s[b])
  {
    if |s| == 0 || !IsBlank(s[0]) then 0 else 1 + FirstNonBlank(s[1..])
  }

  /** One past `find_last_not_of(" \t")`: everything from here on is blank. */
  function EndOfNonBlank(s: string): (e: nat)
    ensures e <= |s|
    ensures forall i :: e <= i < |s| ==> IsBlank(s[i])
    ensures e > 0 ==> !IsBlank(s[e - 1])
  {
    if |s| == 0 || !IsBlank(s[|s| - 1]) then |s| else EndOfNonBlank(s[..|s| - 1])
  }

  /** `ConfigReader::trim`: the text between the leading and the trailing
      run of spaces and tabs; all-blank text trims to "". */
  function Trim(s: string): (t: string)
    ensures Trimmed(t)
    ensures t == "" <==> AllBlank(s)
    ensures exists b, e :: 0 <= b <= e <= |s| && t == s[b..e]
                           && (forall i :: 0 <= i < b ==> IsBlank(s[i]))
                           && (forall i :: e <= i < |s| ==> IsBlank(s[i]))
  {
    var b := FirstNonBlank(s);
    if b == |s| then
      assert s[0..0] == "";
      ""
    else
      var e := EndOfNonBlank(s);
      assert s[b] == s[b..e][0];
      s[b..e]
  }

  /** Trimming a text surrounded by blanks that itself neither starts nor
      ends with a blank gives exactly that text. */
  lemma TrimPadded(a: string, t: string, c: string)
    requires AllBlank(a) && AllBlank(c) && Trimmed(t)
    ensures Trim(a + t + c) == t
  {
    var s := a + t + c;
    var m := |a| + |t|;
    assert forall i :: 0 <= i < |a| ==> s[i] == a[i];
    assert forall i :: m <= i < |s| ==> s[i] == c[i - m];
    if t == "" {
      assert AllBlank(s);
    } else {
      assert s[|a|] == t[0];
      assert s[m - 1] == t[|t| - 1];
      var b := FirstNonBlank(s);
      var e := EndOfNonBlank(s);
      assert b == |a|;
      assert e == m;
      assert s[b..e] == t;
    }
  }

  /** A text that neither starts nor ends with a blank trims to itself. */
  lemma TrimOfTrimmed(t: string)
    requires Trimmed(t)
    ensures Trim(t) == t
  {
    TrimPadded("", t, "");
    assert "" + t + "" == t;
  }

  /** `trim` is idempotent. */
  lemma TrimIdempotent(s: string)
    ensures Trim(Trim(s)) == Trim(s)
  {
    TrimOfTrimmed(Trim(s));
  }

  /** What the loader makes of one line, after trimming it. */
  datatype Line =
    | Skip                              // empty, or a `#` comment
    | Header(name: string)              // `[name]`
    | Entry(key: string, value: string) // text before and after the first `=`
    | NoEquals                          // anything else: ignored

  function Classify(raw: string): (l: Line)
    ensures l.Skip? <==> Trim(raw) == "" || Trim(raw)[0] == '#'
    ensures l.Header? ==> Trim(raw) == "[" + l.name + "]"
    ensures l.Header? <==> var t := Trim(raw);
                           t != "" && t[0] != '#' && t[0] == '[' && t[|t| - 1] == ']'
    ensures l.NoEquals? <==> var t := Trim(raw);
                             t != "" && t[0] != '#' && !(t[0] == '[' && t[|t| - 1] == ']') && '=' !in t
    ensures l.Entry? ==> Trimmed(l.key) && Trimmed(l.value)
  {
    var line := Trim(raw);
    if line == "" || line[0] == '#' then Skip
    else if line[0] == '[' && line[|line| - 1] == ']' then
      assert line == "[" + line[1..|line| - 1] + "]";
      Header(line[1..|line| - 1])
    else
      var pos := Strings.IndexOf(line, '=');
      if pos == |line| then NoEquals
      else Entry(Trim(line[..pos]), Trim(line[pos + 1..]))
  }

  /** A line that trims to `pre = post`, with no `=` in `pre`, is an entry
      whose key and value are `pre` and `post` trimmed again. */
  lemma ClassifyEntry(raw: string, pre: string, post: string)
    requires Trim(raw) == pre + "=" + post
    requires '=' !in pre
    requires Trim(raw)[0] != '#'
    requires !(Trim(raw)[0] == '[' && Trim(raw)[|Trim(raw)| - 1] == ']')
    ensures Classify(raw) == Entry(Trim(pre), Trim(post))
  {
    var line := Trim(raw);
    assert forall j :: 0 <= j < |pre| ==> line[j] == pre[j] && line[j] != '=';
    assert line[|pre|] == '=';
    assert Strings.IndexOf(line, '=') == |pre|;
    assert line[..|pre|] == pre;
    assert line[|pre| + 1..] == post;
  }

  /** The loader's state between lines: the store and the current section
      ("" before the first header, or after `[]`). */
  datatype LoadState = LoadState(reader: Reader, current: string)

  /** Store one `key = text` line in `section`. A key that already has a value
      is overwritten through that value's `fromString`, which keeps its kind
      and consults no rule; a new key is stored as Text through `setValue`,
      which does consult the rule. Either may throw. */
  function StoreEntry(conv: Conversions, r: Reader, section: string, key: string, text: string)
    : (res: Outcome<Reader>)
    ensures res.state.sections.Keys == r.sections.Keys + {section}
    ensures forall s :: s in r.sections && s != section ==> res.state.sections[s] == r.sections[s]
    ensures res.state.sections[section].rules == SectionAt(r, section).rules
    ensures key in res.state.sections[section].values
    ensures forall k :: k != key ==>
              (k in res.state.sections[section].values <==> k in SectionAt(r, section).values)
    ensures forall k :: k != key && k in SectionAt(r, section).values ==>
              res.state.sections[section].values[k] == SectionAt(r, section).values[k]
    ensures key in SectionAt(r, section).values ==>
              && res.state.sections[section].values[key] == FromText(conv, SectionAt(r, section).values[key], text).state
              && res.state.sections[section].values[key].KindOf() == SectionAt(r, section).values[key].KindOf()
              && (res.Thrown? <==> FromText(conv, SectionAt(r, section).values[key], text).Thrown?)
              && (res.Thrown? ==> res.error == ParseFailed)
    ensures key !in SectionAt(r, section).values ==>
              && res.state.sections[section].values[key] == Text(text)
              && (res.Thrown? <==> key in SectionAt(r, section).rules
                                   && !ValidationRules.Evaluate(conv, SectionAt(r, section).rules[key], Text(text)))
              && (res.Thrown? ==> res.error == ValidationFailed)
  {
    var sec := SectionAt(r, section);
    if ConfigSections.HasKey(sec, key) then
      var parsed := FromText(conv, sec.values[key], text);
      var updated := Reader(r.sections[section := sec.(values := sec.values[key := parsed.state])]);
      if parsed.Normal? then Normal(updated) else Thrown(updated, parsed.error)
    else
      match ConfigSections.SetValue(conv, sec, key, Text(text))
      case Normal(s) => Normal(Reader(r.sections[section := s]))
      case Thrown(s, e) => Thrown(Reader(r.sections[section := s]), e)
  }

  /** One iteration of the `loadConfig` loop. */
  function ApplyLine(conv: Conversions, st: LoadState, raw: string): Outcome<LoadState>
  {
    match Classify(raw)
    case Skip => Normal(st)
    case NoEquals => Normal(st)
    case Header(name) => Normal(st.(current := name))
    case Entry(key, text) =>
      if st.current == "" then Normal(st)
      else
        match StoreEntry(conv, st.reader, st.current, key, text)
        case Normal(r) => Normal(st.(reader := r))
        case Thrown(r, e) => Thrown(st.(reader := r), e)
  }

  /** The `loadConfig` loop over the remaining lines; the first exception
      ends it. */
  function LoadFrom(conv: Conversions, st: LoadState, lines: seq<string>): Outcome<LoadState>
    decreases |lines|
  {
    if |lines| == 0 then Normal(st)
    else
      match ApplyLine(conv, st, lines[0])
      case Normal(next) => LoadFrom(conv, next, lines[1..])
      case Thrown(next, e) => Thrown(next, e)
  }

  /** `loadConfig` on an opened file holding `lines`. */
  function Load(conv: Conversions, r: Reader, lines: seq<string>): Outcome<Reader>
  {
    match LoadFrom(conv, LoadState(r, ""), lines)
    case Normal(st) => Normal(st.reader)
    case Thrown(st, e) => Thrown(st.reader, e)
  }

  /** `initialize`: the subclass's `setDefaultValues` runs on the fresh reader,
      then the file is loaded; a file that cannot be opened (None) leaves the
      defaults as they are. Exceptions from either step propagate. */
  function Initialize(conv: Conversions, setDefaults: Reader -> Outcome<Reader>,
                      file: Option<seq<string>>): (res: Outcome<Reader>)
    ensures setDefaults(EmptyReader).Thrown? ==> res == setDefaults(EmptyReader)
    ensures setDefaults(EmptyReader).Normal? && file.None? ==> res == setDefaults(EmptyReader)
    ensures setDefaults(EmptyReader).Normal? && file.Some? ==>
              res == Load(conv, setDefaults(EmptyReader).state, file.value)
  {
    match setDefaults(EmptyReader)
    case Thrown(r, e) => Thrown(r, e)
    case Normal(r) =>
      match file
      case None => Normal(r)
      case Some(lines) => Load(conv, r, lines)
  }

  /** Loading `a + b` is loading `a` and then, unless that threw, `b` from
      where `a` left off. */
  lemma {:induction false} LoadFromAppend(conv: Conversions, st: LoadState, a: seq<string>, b: seq<string>)
    ensures LoadFrom(conv, st, a + b) ==
              match LoadFrom(conv, st, a)
              case Normal(next) => LoadFrom(conv, next, b)
              case Thrown(next, e) => Thrown(next, e)
    decreases |a|
  {
    if |a| == 0 {
      assert a + b == b;
    } else {
      assert (a + b)[0] == a[0];
      assert (a + b)[1..] == a[1..] + b;
      match ApplyLine(conv, st, a[0])
      case Normal(next) => LoadFromAppend(conv, next, a[1..], b);
      case Thrown(next, e) =>
    }
  }

  /** When `a` loads without an exception, loading `a + b` continues with
      `b` from where `a` stopped. */
  lemma LoadFromAppendNormal(conv: Conversions, st: LoadState, a: seq<string>, b: seq<string>, mid: LoadState)
    requires LoadFrom(conv, st, a) == Normal(mid)
    ensures LoadFrom(conv, st, a + b) == LoadFrom(conv, mid, b)
  {
    LoadFromAppend(conv, st, a, b);
  }

  /** When `a` throws, loading `a + b` throws the same way and never
      reaches `b`. */
  lemma LoadFromAppendThrown(conv: Conversions, st: LoadState, a: seq<string>, b: seq<string>,
                             mid: LoadState, e: Error)
    requires LoadFrom(conv, st, a) == Thrown(mid, e)
    ensures LoadFrom(conv, st, a + b) == Thrown(mid, e)
  {
    LoadFromAppend(conv, st, a, b);
  }

  /** Loading a single line is applying it. */
  lemma LoadOne(conv: Conversions, st: LoadState, raw: string)
    ensures LoadFrom(conv, st, [raw]) == ApplyLine(conv, st, raw)
  {
    assert [raw][1..] == [];
  }

  /** Lines that are not key/value lines (blanks, comments, headers, lines
      without `=`) never change the store; only the current section moves. */
  lemma {:induction false} NoEntriesNoChange(conv: Conversions, st: LoadState, lines: seq<string>)
    requires forall i :: 0 <= i < |lines| ==> !Classify(lines[i]).Entry?
    ensures LoadFrom(conv, st, lines).Normal?
    ensures LoadFrom(conv, st, lines).state.reader == st.reader
    decreases |lines|
  {
    if |lines| > 0 {
      var next := match Classify(lines[0]) case Header(name) => st.(current := name) case _ => st;
      assert ApplyLine(conv, st, lines[0]) == Normal(next);
      NoEntriesNoChange(conv, next, lines[1..]);
    }
  }

  /** Startup keeps the defaults when the file is missing or holds no
      key/value line; a throwing `setDefaultValues` ends startup at once. */
  lemma InitializeKeepsDefaults(conv: Conversions, setDefaults: Reader -> Outcome<Reader>,
                                file: Option<seq<string>>)
    requires file.Some? ==> forall i :: 0 <= i < |file.value| ==> !Classify(file.value[i]).Entry?
    ensures Initialize(conv, setDefaults, file) == setDefaults(EmptyReader)
  {
    if setDefaults(EmptyReader).Normal? && file.Some? {
      NoEntriesNoChange(conv, LoadState(setDefaults(EmptyReader).state, ""), file.value);
    }
  }

  /** Empty lines and `#` comment lines change nothing. */
  lemma SkippedLinesChangeNothing(conv: Conversions, st: LoadState, raw: string)
    requires Trim(raw) == "" || Trim(raw)[0] == '#'
    ensures ApplyLine(conv, st, raw) == Normal(st)
  {
  }

  /** A line that trims to `[name]` makes `name` the current section, and
      touches no value. */
  lemma HeaderSelectsSection(conv: Conversions, st: LoadState, raw: string, name: string)
    requires Trim(raw) == "[" + name + "]"
    ensures ApplyLine(conv, st, raw) == Normal(st.(current := name))
  {
    var line := Trim(raw);
    assert line[0] == '[' && line[|line| - 1] == ']';
    assert line[1..|line| - 1] == name;
  }

  /** Before any header, or after `[]`, no line changes the store. */
  lemma NoSectionNoChange(conv: Conversions, st: LoadState, raw: string)
    requires st.current == ""
    ensures ApplyLine(conv, st, raw).Normal?
    ensures ApplyLine(conv, st, raw).state.reader == st.reader
  {
  }

  /** A line made of a key, an `=` and a text, each with blanks around it,
      is the entry of that key and text: the key must be non-empty and hold no
      `=`, and must not start with `#` or `[` (which would make the line a
      comment or, if the text ends with `]`, a header). The text may be
      empty or hold further `=` signs. */
  lemma ClassifyKeyValue(raw: string, key: string, text: string,
                         lead: string, gap1: string, gap2: string, trail: string)
    requires raw == lead + key + gap1 + "=" + gap2 + text + trail
    requires AllBlank(lead) && AllBlank(gap1) && AllBlank(gap2) && AllBlank(trail)
    requires key != "" && Trimmed(key) && '=' !in key && key[0] != '#' && key[0] != '['
    requires Trimmed(text)
    ensures Classify(raw) == Entry(key, text)
  {
    var pre := key + gap1;
    var post := if text == "" then "" else gap2 + text;
    TrimmedKeyValueLine(raw, key, text, lead, gap1, gap2, trail);
    assert '=' !in pre;
    ClassifyEntry(raw, pre, post);
    TrimPadded("", key, gap1);
    assert "" + key + gap1 == pre;
    if text == "" {
      TrimPadded("", "", "");
      assert "" + "" + "" == "";
    } else {
      TrimPadded(gap2, text, "");
      assert gap2 + text + "" == post;
    }
  }

  /** The trimmed form of such a line: everything from the key on, minus
      the trailing blanks (those after the `=` too when the text is empty). */
  lemma TrimmedKeyValueLine(raw: string, key: string, text: string,
                            lead: string, gap1: string, gap2: string, trail: string)
    requires raw == lead + key + gap1 + "=" + gap2 + text + trail
    requires AllBlank(lead) && AllBlank(gap1) && AllBlank(gap2) && AllBlank(trail)
    requires key != "" && Trimmed(key)
    requires Trimmed(text)
    ensures Trim(raw) == key + gap1 + "=" + (if text == "" then "" else gap2 + text)
  {
    var line := key + gap1 + "=" + (if text == "" then "" else gap2 + text);
    var tail := if text == "" then gap2 + trail else trail;
    BlankAppend(gap2, trail);
    assert raw == lead + line + tail by {
      if text == "" {
        assert raw == lead + (key + gap1 + "=") + (gap2 + trail);
      } else {
        assert raw == lead + (key + gap1 + "=" + (gap2 + text)) + trail;
      }
    }
    assert line[0] == key[0];
    TrimPadded(lead, line, tail);
  }

  lemma BlankAppend(a: string, b: string)
    requires AllBlank(a) && AllBlank(b)
    ensures AllBlank(a + b)
  {
    assert forall i :: |a| <= i < |a + b| ==> (a + b)[i] == b[i - |a|];
  }

  /** A key the loader reads back from a `key = value` line: non-empty,
      without surrounding blanks or `=`, and not starting with `#` or `[`. */
  predicate PlainKey(k: string)
  {
    k != "" && Trimmed(k) && '=' !in k && k[0] != '#' && k[0] != '['
  }

  /** `key = text`, one space on each side of the `=`, reads as that key and
      that text. */
  lemma SpacedEntry(key: string, text: string)
    requires PlainKey(key) && Trimmed(text)
    ensures Classify(key + " = " + text) == Entry(key, text)
  {
    assert key + " = " + text == "" + key + " " + "=" + " " + text + "" by {
      assert " = " == " " + "=" + " ";
    }
    assert AllBlank("") && AllBlank(" ");
    ClassifyKeyValue(key + " = " + text, key, text, "", " ", " ", "");
  }

  /** A new key with no rule is stored as Text, and nothing throws. */
  lemma StoreNewEntry(conv: Conversions, r: Reader, s: string, key: string, text: string)
    requires key !in SectionAt(r, s).values && key !in SectionAt(r, s).rules
    ensures StoreEntry(conv, r, s, key, text)
            == Normal(Reader(r.sections[s := SectionAt(r, s).(values := SectionAt(r, s).values[key := Text(text)])]))
  {
  }

  /** An entry line under a current section does what `StoreEntry` does:
      it keeps the current section, takes the store `StoreEntry` leaves, and
      throws exactly when and how `StoreEntry` throws. */
  lemma ApplyEntry(conv: Conversions, st: LoadState, line: string, key: string, text: string)
    requires Classify(line) == Entry(key, text) && st.current != ""
    ensures var stored := StoreEntry(conv, st.reader, st.current, key, text);
            stored.Normal? ==> ApplyLine(conv, st, line) == Normal(st.(reader := stored.state))
    ensures var stored := StoreEntry(conv, st.reader, st.current, key, text);
            stored.Thrown? ==> ApplyLine(conv, st, line) == Thrown(st.(reader := stored.state), stored.error)
  {
  }

  /** Trailing comments are not stripped: in a line `key = value # comment`
      with any blanks around its parts, the comment and the blanks before it
      become part of the stored text. For a new key without a rule, the line
      `  CM   =   30.0   # cruise missile  ` stores the Text
      `30.0   # cruise missile`. When the key already holds a number, as `CM`
      does in the library's sample schema, the same text goes to `std::stod`
      through `fromString` instead (see `ExistingKeyBypassesRule`). */
  lemma CommentIsKeptInValue(conv: Conversions, r: Reader, section: string, key: string,
                             value: string, comment: string,
                             lead: string, gap1: string, gap2: string, gap3: string, trail: string)
    requires section != "" && PlainKey(key)
    requires key !in SectionAt(r, section).values && key !in SectionAt(r, section).rules
    requires AllBlank(lead) && AllBlank(gap1) && AllBlank(gap2) && AllBlank(gap3) && AllBlank(trail)
    requires value != "" && !IsBlank(value[0])
    requires comment != "" && comment[0] == '#' && !IsBlank(comment[|comment| - 1])
    ensures var sec := SectionAt(r, section);
            ApplyLine(conv, LoadState(r, section),
                      lead + key + gap1 + "=" + gap2 + value + gap3 + comment + trail)
            == Normal(LoadState(Reader(r.sections[section := sec.(values := sec.values[key := Text(value + gap3 + comment)])]),
                                section))
  {
    var text := value + gap3 + comment;
    var raw := lead + key + gap1 + "=" + gap2 + value + gap3 + comment + trail;
    assert Trimmed(text) by {
      assert text[0] == value[0];
      assert text[|text| - 1] == comment[|comment| - 1];
    }
    assert Classify(raw) == Entry(key, text) by {
      assert raw == lead + key + gap1 + "=" + gap2 + text + trail;
      ClassifyKeyValue(raw, key, text, lead, gap1, gap2, trail);
    }
    StoreNewEntry(conv, r, section, key, text);
    ApplyEntry(conv, LoadState(r, section), raw, key, text);
  }

  /** The line `[name]` selects `name`, whatever `name` holds. */
  lemma BracketedLine(conv: Conversions, st: LoadState, name: string)
    ensures ApplyLine(conv, st, "[" + name + "]") == Normal(st.(current := name))
  {
    TrimOfTrimmed("[" + name + "]");
    HeaderSelectsSection(conv, st, "[" + name + "]", name);
  }

  /** A header line followed by an entry line for a key the section
      already holds: the key is overwritten through `fromString` (keeping
      its kind), whatever rule the key has, and the rules stay as they were. */
  lemma ExistingKeyBypassesRule(conv: Conversions, r: Reader, section: string, raw: string,
                                key: string, text: string)
    requires section != "" && section in r.sections && key in r.sections[section].values
    requires Classify(raw) == Entry(key, text)
    ensures var parsed := FromText(conv, r.sections[section].values[key], text);
            var sec := r.sections[section].(values := r.sections[section].values[key := parsed.state]);
            var res := Load(conv, r, ["[" + section + "]", raw]);
            && (res.Normal? <==> parsed.Normal?)
            && (res.Thrown? ==> res.error == ParseFailed)
            && res.state == Reader(r.sections[section := sec])
  {
    var st0 := LoadState(r, "");
    var st1 := LoadState(r, section);
    var parsed := FromText(conv, r.sections[section].values[key], text);
    var sec := r.sections[section].(values := r.sections[section].values[key := parsed.state]);
    var st2 := LoadState(Reader(r.sections[section := sec]), section);
    var step := if parsed.Normal? then Normal(st2) else Thrown(st2, parsed.error);
    assert ApplyLine(conv, st1, raw) == step by {
      assert StoreEntry(conv, r, section, key, text) ==
             if parsed.Normal? then Normal(st2.reader) else Thrown(st2.reader, parsed.error);
    }
    var lines := ["[" + section + "]", raw];
    assert lines[0] == "[" + section + "]" && lines[1..][0] == raw && lines[1..][1..] == [];
    assert LoadFrom(conv, st1, lines[1..]) == step;
    assert LoadFrom(conv, st0, lines) == step by {
      BracketedLine(conv, st0, section);
    }
  }

  /** The loader never falls back to a default and never consults the rule
      of a key that already has a value. With `kor` holding 500.0 under a
      `GreaterThanZero` rule in section `ABT`, loading `[ABT]` and `kor = -5`
      stores -5.0 and leaves the section violating its rule. The same holds
      for any section, any key and any text that `std::stod` reads as -5. */
  lemma LoadedValueBypassesRule(conv: Conversions, section: string, key: string, text: string)
    requires section != "" && PlainKey(key) && Trimmed(text)
    requires conv.stod(text) == Some(-5.0)
    ensures var abt := ConfigSections.Section(map[key := Float(500.0)],
                                               map[key := ValidationRules.GreaterThanZero]);
            var res := Load(conv, Reader(map[section := abt]), ["[" + section + "]", key + " = " + text]);
            && res.Normal?
            && GetValue(res.state, section, key, FloatKind) == Success(Float(-5.0))
            && !ConfigSections.Consistent(conv, res.state.sections[section])
  {
    var abt := ConfigSections.Section(map[key := Float(500.0)],
                                      map[key := ValidationRules.GreaterThanZero]);
    var line := key + " = " + text;
    SpacedEntry(key, text);
    ExistingKeyBypassesRule(conv, Reader(map[section := abt]), section, line, key, text);
    var sec := Load(conv, Reader(map[section := abt]), ["[" + section + "]", line]).state.sections[section];
    assert sec.values[key] == Float(-5.0) && sec.rules == abt.rules;
  }

  /** A line that throws right after the header of its section ends the
      load there, with the store as it was at the throw (which, for a rule
      rejecting a new key, already holds the rejected value). */
  lemma ThrowAfterHeader(conv: Conversions, r: Reader, section: string, line: string,
                         rest: seq<string>, st: LoadState, e: Error)
    requires ApplyLine(conv, LoadState(r, section), line) == Thrown(st, e)
    ensures Load(conv, r, ["[" + section + "]", line] + rest) == Thrown(st.reader, e)
  {
    var st0 := LoadState(r, "");
    var st1 := LoadState(r, section);
    var lines := ["[" + section + "]", line] + rest;
    assert lines[0] == "[" + section + "]" && lines[1..][0] == line;
    assert LoadFrom(conv, st1, lines[1..]) == Thrown(st, e);
    assert LoadFrom(conv, st0, lines) == Thrown(st, e) by {
      BracketedLine(conv, st0, section);
    }
  }

  /** Text that `std::stod` cannot read, for a key that already holds an
      Int or a Float, throws out of the loader whatever the key's rule and
      whatever else the store holds: after `[ABT]` and `kor = abc` the store
      is exactly as before and no later line is read. */
  lemma UnparsableNumberAbortsLoad(conv: Conversions, r: Reader, section: string, key: string,
                                   text: string, rest: seq<string>)
    requires section != "" && section in r.sections && key in r.sections[section].values
    requires r.sections[section].values[key].Int? || r.sections[section].values[key].Float?
    requires PlainKey(key) && Trimmed(text) && conv.stod(text) == None
    ensures Load(conv, r, ["[" + section + "]", key + " = " + text] + rest) == Thrown(r, ParseFailed)
  {
    var st1 := LoadState(r, section);
    var line := key + " = " + text;
    assert StoreEntry(conv, r, section, key, text) == Thrown(r, ParseFailed) by {
      var sec := r.sections[section];
      var v := sec.values[key];
      assert FromText(conv, v, text) == Thrown(v, ParseFailed);
      assert sec.values[key := v] == sec.values;
      assert sec.(values := sec.values[key := v]) == sec;
      assert r.sections[section := sec] == r.sections;
    }
    assert ApplyLine(conv, st1, line) == Thrown(st1, ParseFailed) by {
      SpacedEntry(key, text);
      ApplyEntry(conv, st1, line, key, text);
    }
    ThrowAfterHeader(conv, r, section, line, rest, st1, ParseFailed);
  }
}
