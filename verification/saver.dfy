/** `ConfigReader::saveConfig` as a function from the store to the text it
    writes, and what loading that text back into a fresh reader gives.

    `saveConfig` walks two `std::unordered_map`s, whose iteration order is
    unspecified. The model therefore takes that order as an input, a
    `Listing` that names every section, and every key of every section,
    exactly once.
 */
module Saver {
  import opened Outcomes
  import opened ConfigValues
  import ConfigSections
  import opened ConfigReaders
  import opened Loader
  import Strings

  predicate Distinct<T(==)>(xs: seq<T>)
  {
    forall i, j :: 0 <= i < j < |xs| ==> xs[i] != xs[j]
  }

  /** The order in which `saveConfig` visits the sections, and for each
      section the order in which it visits its keys. */
  datatype Listing = Listing(sections: seq<string>, keys: map<string, seq<string>>)

  /** `l` visits each section of `r` once, and each key of each section once. */
  ghost predicate Lists(l: Listing, r: Reader)
  {
    && Distinct(l.sections)
    && (forall s :: s in l.sections <==> s in r.sections)
    && forall s :: s in r.sections ==>
         && s in l.keys
         && Distinct(l.keys[s])
         && forall k :: k in l.keys[s] <==> k in r.sections[s].values
  }

  /** `key = text` as `saveConfig` writes it. */
  function EntryLine(conv: Conversions, key: string, v: Value): string
  {
    key + " = " + ToText(conv, v)
  }

  /** The entry lines of the listed keys of one section, in listed order. */
  function EntryLines(conv: Conversions, sec: ConfigSections.Section, keys: seq<string>): (lines: seq<string>)
    requires forall k :: k in keys ==> k in sec.values
    ensures |lines| == |keys|
    ensures forall i :: 0 <= i < |keys| ==> lines[i] == EntryLine(conv, keys[i], sec.values[keys[i]])
  {
    if keys == [] then []
    else
      var k := keys[|keys| - 1];
      EntryLines(conv, sec, keys[..|keys| - 1]) + [EntryLine(conv, k, sec.values[k])]
  }

  /** One section's block: its header, its entries, and an empty line. */
  function SectionLines(conv: Conversions, name: string, sec: ConfigSections.Section, keys: seq<string>)
    : seq<string>
    requires forall k :: k in keys ==> k in sec.values
  {
    ["[" + name + "]"] + EntryLines(conv, sec, keys) + [""]
  }

  /** Each of `names` is a section of `r` whose listed keys are keys of it. */
  ghost predicate Covers(r: Reader, l: Listing, names: seq<string>)
  {
    forall s :: s in names ==>
      s in r.sections && s in l.keys && forall k :: k in l.keys[s] ==> k in r.sections[s].values
  }

  /** Each of `names` is a section with a non-empty name whose listed keys
      are distinct and, with their value texts, survive the text format. */
  ghost predicate SaveableSections(conv: Conversions, r: Reader, l: Listing, names: seq<string>)
  {
    && Covers(r, l, names)
    && forall s :: s in names ==>
         && s != "" && '\n' !in s && Distinct(l.keys[s])
         && forall k :: k in l.keys[s] ==> SaveableKey(k) && SaveableText(ToText(conv, r.sections[s].values[k]))
  }

  /** The blocks of the named sections, in the listed order. */
  function BlocksOf(conv: Conversions, r: Reader, l: Listing, names: seq<string>): seq<string>
    requires Covers(r, l, names)
  {
    if |names| == 0 then []
    else
      var s := names[|names| - 1];
      BlocksOf(conv, r, l, names[..|names| - 1]) + SectionLines(conv, s, r.sections[s], l.keys[s])
  }

  /** `saveConfig`: the text written to the file, for the visiting order `l`. */
  function SaveText(conv: Conversions, r: Reader, l: Listing): string
    requires Lists(l, r)
  {
    Strings.Unlines(BlocksOf(conv, r, l, l.sections))
  }

  /** A key that `saveConfig` writes so that the loader reads it back:
      non-empty, without surrounding blanks, without `=` or a newline, and
      not starting with `#` or `[`. */
  predicate SaveableKey(k: string)
  {
    PlainKey(k) && '\n' !in k
  }

  /** A value text the loader reads back unchanged. */
  predicate SaveableText(t: string)
  {
    Trimmed(t) && '\n' !in t
  }

  /** Every section name, key and value text of `r` survives the text format. */
  predicate Saveable(conv: Conversions, r: Reader)
  {
    forall s :: s in r.sections ==>
      && s != "" && '\n' !in s
      && forall k :: k in r.sections[s].values ==>
           SaveableKey(k) && SaveableText(ToText(conv, r.sections[s].values[k]))
  }

  /** The given keys with each value replaced by the Text of its `toString`. */
  function AsText(conv: Conversions, vals: map<string, Value>, keys: seq<string>): (m: map<string, Value>)
    requires forall k :: k in keys ==> k in vals
    ensures forall k :: k in m <==> k in keys
  {
    map k | k in keys :: Text(ToText(conv, vals[k]))
  }

  /** The reader after loading the entries `keys` of `sec` into the new
      section `s` of `r`: the section appears with its first entry. */
  function WithEntries(conv: Conversions, r: Reader, s: string, sec: ConfigSections.Section, keys: seq<string>): Reader
    requires forall k :: k in keys ==> k in sec.values
  {
    if keys == [] then r
    else Reader(r.sections[s := ConfigSections.Section(AsText(conv, sec.values, keys), map[])])
  }

  /** What reloading the blocks of `names` gives: one section per non-empty
      listed section, every value as Text, no rules. */
  function Reloaded(conv: Conversions, r: Reader, l: Listing, names: seq<string>): map<string, ConfigSections.Section>
    requires Covers(r, l, names)
  {
    map s | s in names && l.keys[s] != [] :: ConfigSections.Section(AsText(conv, r.sections[s].values, l.keys[s]), map[])
  }

  /** The loader reads a saved entry line as the key and the value's text. */
  lemma EntryLineClassifies(conv: Conversions, key: string, v: Value)
    requires SaveableKey(key) && SaveableText(ToText(conv, v))
    ensures Classify(EntryLine(conv, key, v)) == Entry(key, ToText(conv, v))
  {
    SpacedEntry(key, ToText(conv, v));
  }

  lemma AsTextExtend(conv: Conversions, vals: map<string, Value>, keys: seq<string>, k: string)
    requires forall x :: x in keys ==> x in vals
    requires k in vals
    ensures AsText(conv, vals, keys + [k]) == AsText(conv, vals, keys)[k := Text(ToText(conv, vals[k]))]
  {
  }

  /** While a saved section is being reloaded, it holds exactly the entries
      read so far, and no rules. */
  lemma WithEntriesSection(conv: Conversions, r: Reader, s: string,
                           sec: ConfigSections.Section, keys: seq<string>, x: ConfigSections.Section)
    requires s !in r.sections
    requires forall k :: k in keys ==> k in sec.values
    ensures SectionAt(WithEntries(conv, r, s, sec, keys), s)
            == ConfigSections.Section(AsText(conv, sec.values, keys), map[])
    ensures WithEntries(conv, r, s, sec, keys).sections[s := x] == r.sections[s := x]
  {
    if keys == [] {
      assert AsText(conv, sec.values, keys) == map[];
    }
  }

  /** Loading the entry line of a key not loaded yet adds it to the
      section being reloaded. */
  lemma EntryStep(conv: Conversions, r: Reader, s: string,
                  sec: ConfigSections.Section, prev: seq<string>, k: string)
    requires s != "" && s !in r.sections
    requires forall x :: x in prev ==> x in sec.values
    requires k in sec.values && k !in prev
    requires SaveableKey(k) && SaveableText(ToText(conv, sec.values[k]))
    ensures LoadFrom(conv, LoadState(WithEntries(conv, r, s, sec, prev), s), [EntryLine(conv, k, sec.values[k])])
            == Normal(LoadState(WithEntries(conv, r, s, sec, prev + [k]), s))
  {
    var text := ToText(conv, sec.values[k]);
    var line := EntryLine(conv, k, sec.values[k]);
    var before := WithEntries(conv, r, s, sec, prev);
    var after := ConfigSections.Section(AsText(conv, sec.values, prev + [k]), map[]);
    WithEntriesSection(conv, r, s, sec, prev, after);
    AsTextExtend(conv, sec.values, prev, k);
    StoreNewEntry(conv, before, s, k, text);
    assert WithEntries(conv, r, s, sec, prev + [k]) == Reader(before.sections[s := after]);
    EntryLineClassifies(conv, k, sec.values[k]);
    ApplyEntry(conv, LoadState(before, s), line, k, text);
    LoadOne(conv, LoadState(before, s), line);
  }

  /** Loading the entry lines of a saved section adds exactly its keys. */
  lemma {:induction false} EntriesReload(conv: Conversions, r: Reader, s: string,
                                         sec: ConfigSections.Section, keys: seq<string>)
    requires s != "" && s !in r.sections
    requires Distinct(keys)
    requires forall k :: k in keys ==> k in sec.values
    requires forall k :: k in keys ==> SaveableKey(k) && SaveableText(ToText(conv, sec.values[k]))
    ensures LoadFrom(conv, LoadState(r, s), EntryLines(conv, sec, keys))
            == Normal(LoadState(WithEntries(conv, r, s, sec, keys), s))
    decreases |keys|
  {
    if keys != [] {
      var prev := keys[..|keys| - 1];
      var k := keys[|keys| - 1];
      assert keys == prev + [k];
      assert Distinct(prev) && k !in prev by {
        assert forall i :: 0 <= i < |prev| ==> prev[i] == keys[i];
      }
      var mid := LoadState(WithEntries(conv, r, s, sec, prev), s);
      var line := EntryLine(conv, k, sec.values[k]);
      assert LoadFrom(conv, LoadState(r, s), EntryLines(conv, sec, prev)) == Normal(mid) by {
        EntriesReload(conv, r, s, sec, prev);
      }
      LoadFromAppendNormal(conv, LoadState(r, s), EntryLines(conv, sec, prev), [line], mid);
      EntryStep(conv, r, s, sec, prev, k);
    }
  }

  /** Loading one saved section block into a reader that does not have it
      yet adds the section (unless it has no keys) and makes it current. */
  lemma SectionReload(conv: Conversions, r: Reader, cur: string, s: string,
                      sec: ConfigSections.Section, keys: seq<string>)
    requires s != "" && s !in r.sections
    requires Distinct(keys)
    requires forall k :: k in keys ==> k in sec.values
    requires forall k :: k in keys ==> SaveableKey(k) && SaveableText(ToText(conv, sec.values[k]))
    ensures LoadFrom(conv, LoadState(r, cur), SectionLines(conv, s, sec, keys))
            == Normal(LoadState(WithEntries(conv, r, s, sec, keys), s))
  {
    var header := "[" + s + "]";
    var entries := EntryLines(conv, sec, keys);
    var done := LoadState(WithEntries(conv, r, s, sec, keys), s);
    assert LoadFrom(conv, LoadState(r, cur), [header]) == Normal(LoadState(r, s)) by {
      LoadOne(conv, LoadState(r, cur), header);
      BracketedLine(conv, LoadState(r, cur), s);
    }
    assert LoadFrom(conv, LoadState(r, s), entries) == Normal(done) by {
      EntriesReload(conv, r, s, sec, keys);
    }
    assert LoadFrom(conv, done, [""]) == Normal(done) by {
      LoadOne(conv, done, "");
      assert AllBlank("");
      SkippedLinesChangeNothing(conv, done, "");
    }
    LoadFromAppendNormal(conv, LoadState(r, cur), [header], entries, LoadState(r, s));
    LoadFromAppendNormal(conv, LoadState(r, cur), [header] + entries, [""], done);
  }

  /** Reloading one more saved section adds it, unless it has no keys. */
  lemma ReloadedExtend(conv: Conversions, r: Reader, l: Listing, names: seq<string>, s: string)
    requires Covers(r, l, names) && Covers(r, l, [s])
    ensures Reloaded(conv, r, l, names + [s])
            == WithEntries(conv, Reader(Reloaded(conv, r, l, names)), s, r.sections[s], l.keys[s]).sections
  {
    var all := names + [s];
    assert forall x :: x in all <==> x in names || x == s;
    var before := Reloaded(conv, r, l, names);
    var after := Reloaded(conv, r, l, all);
    var expected := WithEntries(conv, Reader(before), s, r.sections[s], l.keys[s]).sections;
    forall x ensures x in after <==> x in expected {
    }
    forall x | x in after ensures after[x] == expected[x] {
    }
  }

  /** Loading the block of one more section after lines that reloaded the
      sections `prev`. */
  lemma BlockStep(conv: Conversions, r: Reader, l: Listing, prev: seq<string>, s: string,
                  start: LoadState, lines: seq<string>, cur: string)
    requires SaveableSections(conv, r, l, prev) && SaveableSections(conv, r, l, [s])
    requires s !in prev
    requires LoadFrom(conv, start, lines) == Normal(LoadState(Reader(Reloaded(conv, r, l, prev)), cur))
    ensures LoadFrom(conv, start, lines + SectionLines(conv, s, r.sections[s], l.keys[s]))
            == Normal(LoadState(Reader(Reloaded(conv, r, l, prev + [s])), s))
  {
    var before := Reader(Reloaded(conv, r, l, prev));
    var block := SectionLines(conv, s, r.sections[s], l.keys[s]);
    LoadFromAppendNormal(conv, start, lines, block, LoadState(before, cur));
    assert s !in before.sections;
    assert s in [s];
    SectionReload(conv, before, cur, s, r.sections[s], l.keys[s]);
    ReloadedExtend(conv, r, l, prev, s);
  }

  /** Loading the blocks of the first sections of a listing. */
  lemma {:induction false} BlocksReload(conv: Conversions, r: Reader, l: Listing, names: seq<string>)
    requires Distinct(names)
    requires SaveableSections(conv, r, l, names)
    ensures LoadFrom(conv, LoadState(EmptyReader, ""), BlocksOf(conv, r, l, names))
            == Normal(LoadState(Reader(Reloaded(conv, r, l, names)),
                                if names == [] then "" else names[|names| - 1]))
    decreases |names|
  {
    if names == [] {
      assert Reloaded(conv, r, l, names) == map[];
    } else {
      var prev := names[..|names| - 1];
      var s := names[|names| - 1];
      assert names == prev + [s];
      assert Distinct(prev) && s !in prev && SaveableSections(conv, r, l, prev)
             && SaveableSections(conv, r, l, [s]) by {
        assert forall i :: 0 <= i < |prev| ==> prev[i] == names[i];
      }
      BlocksReload(conv, r, l, prev);
      BlockStep(conv, r, l, prev, s, LoadState(EmptyReader, ""), BlocksOf(conv, r, l, prev),
                if prev == [] then "" else prev[|prev| - 1]);
    }
  }

  /** What a fresh reader holds after loading the saved text of `r`: every
      section of `r` that has keys, with every key, each value replaced by
      the Text of its `toString`, and no rules. */
  function TextCopy(conv: Conversions, r: Reader): Reader
  {
    Reader(map s | s in r.sections && r.sections[s].values != map[] ::
             ConfigSections.Section(
               map k | k in r.sections[s].values :: Text(ToText(conv, r.sections[s].values[k])),
               map[]))
  }

  /** Reloading all the listed sections gives the Text copy, whatever the
      visiting order. */
  lemma ReloadedIsTextCopy(conv: Conversions, r: Reader, l: Listing)
    requires Lists(l, r)
    ensures Reader(Reloaded(conv, r, l, l.sections)) == TextCopy(conv, r)
  {
    forall s | s in r.sections
      ensures l.keys[s] == [] <==> r.sections[s].values == map[]
      ensures AsText(conv, r.sections[s].values, l.keys[s])
              == map k | k in r.sections[s].values :: Text(ToText(conv, r.sections[s].values[k]))
    {
      if l.keys[s] != [] {
        assert l.keys[s][0] in r.sections[s].values;
      }
      if r.sections[s].values != map[] {
        var k :| k in r.sections[s].values;
        assert k in l.keys[s];
      }
    }
  }

  /** Save, then load into a fresh reader: the result is the Text copy of
      the store, for every visiting order, provided names, keys and value
      texts survive the text format. */
  lemma SaveThenLoad(conv: Conversions, r: Reader, l: Listing)
    requires Lists(l, r) && Saveable(conv, r)
    ensures Load(conv, EmptyReader, Strings.Split(SaveText(conv, r, l), '\n')) == Normal(TextCopy(conv, r))
  {
    var lines := BlocksOf(conv, r, l, l.sections);
    assert SaveableSections(conv, r, l, l.sections);
    assert Strings.Split(SaveText(conv, r, l), '\n') == lines by {
      BlocksHaveNoNewline(conv, r, l, l.sections);
      Strings.SplitUnlines(lines);
    }
    var last := if l.sections == [] then "" else l.sections[|l.sections| - 1];
    assert LoadFrom(conv, LoadState(EmptyReader, ""), lines)
           == Normal(LoadState(TextCopy(conv, r), last)) by {
      BlocksReload(conv, r, l, l.sections);
      ReloadedIsTextCopy(conv, r, l);
    }
  }

  predicate NoNewlines(lines: seq<string>)
  {
    forall i :: 0 <= i < |lines| ==> '\n' !in lines[i]
  }

  /** No line of a saved block holds a newline, when neither the section
      name, nor any key, nor any value text does. */
  lemma SectionHasNoNewline(conv: Conversions, name: string, sec: ConfigSections.Section, keys: seq<string>)
    requires '\n' !in name
    requires forall k :: k in keys ==> k in sec.values && '\n' !in k && '\n' !in ToText(conv, sec.values[k])
    ensures NoNewlines(SectionLines(conv, name, sec, keys))
  {
    var entries := EntryLines(conv, sec, keys);
    assert NoNewlines(entries) by {
      forall i | 0 <= i < |entries| ensures '\n' !in entries[i] {
        var k := keys[i];
        assert entries[i] == k + " = " + ToText(conv, sec.values[k]);
        assert '\n' !in " = ";
      }
    }
    assert '\n' !in "[" + name + "]";
  }

  /** No saved line holds a newline, so the file reads back line by line. */
  lemma {:induction false} BlocksHaveNoNewline(conv: Conversions, r: Reader, l: Listing, names: seq<string>)
    requires SaveableSections(conv, r, l, names)
    ensures NoNewlines(BlocksOf(conv, r, l, names))
    decreases |names|
  {
    if names != [] {
      var prev := names[..|names| - 1];
      var s := names[|names| - 1];
      assert SaveableSections(conv, r, l, prev) by {
        assert forall i :: 0 <= i < |prev| ==> prev[i] == names[i];
      }
      assert NoNewlines(BlocksOf(conv, r, l, prev)) by {
        BlocksHaveNoNewline(conv, r, l, prev);
      }
      assert NoNewlines(SectionLines(conv, s, r.sections[s], l.keys[s])) by {
        SectionHasNoNewline(conv, s, r.sections[s], l.keys[s]);
      }
    }
  }

  /** A store holding only Text values, no rules and no empty sections comes
      back from a save and a load exactly as it was. */
  lemma TextStoreRoundTrips(conv: Conversions, r: Reader, l: Listing)
    requires Lists(l, r) && Saveable(conv, r)
    requires forall s :: s in r.sections ==>
               r.sections[s].values != map[] && r.sections[s].rules == map[]
               && forall k :: k in r.sections[s].values ==> r.sections[s].values[k].Text?
    ensures Load(conv, EmptyReader, Strings.Split(SaveText(conv, r, l), '\n')) == Normal(r)
  {
    assert TextCopy(conv, r) == r by {
      forall s | s in r.sections
        ensures s in TextCopy(conv, r).sections && TextCopy(conv, r).sections[s] == r.sections[s]
      {
        var vals := r.sections[s].values;
        assert (map k | k in vals :: Text(ToText(conv, vals[k]))) == vals;
      }
    }
    SaveThenLoad(conv, r, l);
  }
}
