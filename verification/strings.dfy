/** The two standard-library string idioms the store relies on:
    splitting with `std::getline(stream, item, delim)` (the loader reads
    lines with it and FloatList parsing reads comma-separated items with it),
    and joining with an `std::ostringstream` loop that writes a separator
    before every element but the first.
 */
module Strings {

  /** Position of the first `d` in `s`, or `|s|` when there is none
      (`std::string::find` with `npos` written as `|s|`). */
  function IndexOf(s: string, d: char): (i: nat)
    ensures i <= |s|
    ensures forall j :: 0 <= j < i ==> s[j] != d
    ensures i < |s| ==> s[i] == d
  {
    if |s| == 0 || s[0] == d then 0 else 1 + IndexOf(s[1..], d)
  }

  /** The items successive `std::getline(stream, item, d)` calls produce on a
      stream holding `s`: every `d` ends an item, a final item without a
      trailing `d` is still produced, but nothing follows a trailing `d`. */
  function Split(s: string, d: char): (items: seq<string>)
    ensures s == "" <==> items == []
    ensures forall k :: 0 <= k < |items| ==> d !in items[k]
    decreases |s|
  {
    if s == "" then []
    else
      var i := IndexOf(s, d);
      if i == |s| then [s] else [s[..i]] + Split(s[i + 1..], d)
  }

  /** The text an `std::ostringstream` holds after writing `parts` with `sep`
      before every element except the first. */
  function Join(parts: seq<string>, sep: string): string
  {
    if |parts| == 0 then ""
    else if |parts| == 1 then parts[0]
    else parts[0] + sep + Join(parts[1..], sep)
  }

  /** The text a stream holds after writing each line followed by a newline. */
  function Unlines(lines: seq<string>): string
  {
    if |lines| == 0 then "" else lines[0] + "\n" + Unlines(lines[1..])
  }

  /** Splitting stops at the first delimiter and resumes right after it. */
  lemma SplitCons(a: string, d: char, rest: string)
    requires d !in a
    ensures Split(a + [d] + rest, d) == [a] + Split(rest, d)
  {
    var s := a + [d] + rest;
    assert forall j :: 0 <= j < |a| ==> s[j] == a[j] && s[j] != d;
    assert s[|a|] == d;
    assert IndexOf(s, d) == |a|;
    assert s[..|a|] == a;
    assert s[|a| + 1..] == rest;
  }

  /** A non-empty text without the delimiter is a single item. */
  lemma SplitSingle(a: string, d: char)
    requires a != "" && d !in a
    ensures Split(a, d) == [a]
  {
    assert forall j :: 0 <= j < |a| ==> a[j] != d;
  }

  /** Appending one more element writes the separator and then the element,
      so the joined text never starts or ends with a separator of its own. */
  lemma {:induction false} JoinAppend(parts: seq<string>, sep: string, p: string)
    requires parts != []
    ensures Join(parts + [p], sep) == Join(parts, sep) + sep + p
    decreases |parts|
  {
    if |parts| == 1 {
      assert parts + [p] == [parts[0], p];
    } else {
      assert (parts + [p])[1..] == parts[1..] + [p];
      JoinAppend(parts[1..], sep, p);
    }
  }

  /** Splitting a joined list gives the list back, provided no element holds
      the delimiter and the last element is not empty (getline produces
      nothing after a trailing delimiter). */
  lemma {:induction false} SplitJoin(parts: seq<string>, d: char)
    requires forall k :: 0 <= k < |parts| ==> d !in parts[k]
    requires parts != [] ==> parts[|parts| - 1] != ""
    ensures Split(Join(parts, [d]), d) == parts
    decreases |parts|
  {
    if |parts| == 0 {
    } else if |parts| == 1 {
      SplitSingle(parts[0], d);
    } else {
      SplitJoin(parts[1..], d);
      assert parts[0] + [d] + Join(parts[1..], [d]) == Join(parts, [d]);
      SplitCons(parts[0], d, Join(parts[1..], [d]));
    }
  }

  /** Reading back, line by line, a text written line by line gives the same
      lines, empty ones included, provided no line holds a newline. */
  lemma {:induction false} SplitUnlines(lines: seq<string>)
    requires forall k :: 0 <= k < |lines| ==> '\n' !in lines[k]
    ensures Split(Unlines(lines), '\n') == lines
    decreases |lines|
  {
    if |lines| > 0 {
      SplitUnlines(lines[1..]);
      SplitCons(lines[0], '\n', Unlines(lines[1..]));
    }
  }
}
