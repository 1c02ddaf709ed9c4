/** The typed configuration value.

    `TypedConfigValue<T>` holds exactly one private `T`, for the four
    instantiated kinds `int`, `double`, `std::string` and
    `std::vector<double>`, behind the `ConfigValue` interface; callers recover
    the kind with `dynamic_pointer_cast`. Here that hierarchy is a closed sum
    type, and the downcast is a match on the constructor.
 */
module ConfigValues {
  import opened Outcomes
  import Strings

  /** The standard-library numeric text conversions, left uninterpreted:
      - `stod` is `std::stod` (None where it throws, otherwise the number it
        reads from a prefix of the text);
      - `intText` and `doubleText` are `std::to_string` for `int` and `double`;
      - `streamText` is `operator<<` of a `double` on an `std::ostringstream`.
      Doubles are modelled as reals, so only their order is used. */
  datatype Conversions = Conversions(
    stod: string -> Option<real>,
    intText: int -> string,
    doubleText: real -> string,
    streamText: real -> string)

  datatype Kind = IntKind | FloatKind | TextKind | FloatListKind

  datatype Value =
    | Int(i: int)
    | Float(x: real)
    | Text(s: string)
    | FloatList(xs: seq<real>)
  {
    /** The `T` of the `TypedConfigValue<T>` this value stands for. */
    function KindOf(): Kind {
      match this
      case Int(_) => IntKind
      case Float(_) => FloatKind
      case Text(_) => TextKind
      case FloatList(_) => FloatListKind
    }
  }

  /** `static_cast<int>` of a double: the fraction is dropped toward zero. */
  function TruncateTowardZero(x: real): (n: int)
    ensures 0.0 <= x ==> n as real <= x < n as real + 1.0
    ensures x < 0.0 ==> n as real - 1.0 < x <= n as real
  {
    if x >= 0.0 then x.Floor else -((-x).Floor)
  }

  /** `toString`: `std::to_string` for the numeric kinds, the text itself for
      Text, and the elements written with `,` between them for FloatList. */
  function ToText(conv: Conversions, v: Value): string
  {
    match v
    case Int(i) => conv.intText(i)
    case Float(x) => conv.doubleText(x)
    case Text(s) => s
    case FloatList(xs) => Strings.Join(seq(|xs|, k requires 0 <= k < |xs| => conv.streamText(xs[k])), ",")
  }

  /** The FloatList `fromString` loop: each comma-separated item is converted
      with `std::stod` and pushed onto the cleared vector. When an item does
      not convert, the exception leaves the items pushed so far in place. */
  function ParseItems(conv: Conversions, items: seq<string>): (r: Outcome<seq<real>>)
    ensures r.Normal? <==> forall k :: 0 <= k < |items| ==> conv.stod(items[k]).Some?
    ensures r.Normal? ==> |r.state| == |items|
    ensures r.Thrown? ==> r.error == ParseFailed && |r.state| < |items|
                          && conv.stod(items[|r.state|]).None?
    ensures forall k :: 0 <= k < |r.state| ==> conv.stod(items[k]) == Some(r.state[k])
  {
    if |items| == 0 then Normal([])
    else
      match conv.stod(items[0])
      case None => Thrown([], ParseFailed)
      case Some(x) =>
        match ParseItems(conv, items[1..])
        case Normal(xs) => Normal([x] + xs)
        case Thrown(xs, e) => Thrown([x] + xs, e)
  }

  /** `fromString`: overwrite the held value with one read from `text`.
      Numeric kinds go through `std::stod` (an Int truncates); Text takes the
      text verbatim; FloatList splits at commas the way `std::getline` does. */
  function FromText(conv: Conversions, v: Value, text: string): (r: Outcome<Value>)
    ensures r.state.KindOf() == v.KindOf()
    ensures r.Thrown? ==> r.error == ParseFailed
    ensures (v.Int? || v.Float?) ==> (r.Thrown? <==> conv.stod(text).None?)
    ensures (v.Int? || v.Float?) && r.Thrown? ==> r.state == v
    ensures v.Float? && r.Normal? ==> Some(r.state.x) == conv.stod(text)
    ensures v.Int? && r.Normal? ==> r.state == Int(TruncateTowardZero(conv.stod(text).value))
    ensures v.FloatList? ==> r.state == FloatList(ParseItems(conv, Strings.Split(text, ',')).state)
    ensures v.Text? ==> r == Normal(Text(text))
    ensures v.FloatList? ==>
      (r.Normal? <==> forall k :: 0 <= k < |Strings.Split(text, ',')| ==>
                                     conv.stod(Strings.Split(text, ',')[k]).Some?)
  {
    match v
    case Int(_) =>
      (match conv.stod(text)
       case None => Thrown(v, ParseFailed)
       case Some(x) => Normal(Int(TruncateTowardZero(x))))
    case Float(_) =>
      (match conv.stod(text)
       case None => Thrown(v, ParseFailed)
       case Some(x) => Normal(Float(x)))
    case Text(_) => Normal(Text(text))
    case FloatList(_) =>
      (match ParseItems(conv, Strings.Split(text, ','))
       case Normal(xs) => Normal(FloatList(xs))
       case Thrown(xs, e) => Thrown(FloatList(xs), e))
  }

  /** Text round-trips exactly: `toString` then `fromString` on a Text value
      gives back the same text. */
  lemma TextRoundTrip(conv: Conversions, held: string, s: string)
    ensures FromText(conv, Text(held), ToText(conv, Text(s))) == Normal(Text(s))
  {
  }

  /** FloatList round-trips whenever the element conversion does: if every
      element is written as a non-empty, comma-free text that `std::stod`
      reads back as the same number, the list comes back unchanged. */
  lemma FloatListRoundTrip(conv: Conversions, held: seq<real>, xs: seq<real>)
    requires forall k :: 0 <= k < |xs| ==>
               conv.streamText(xs[k]) != "" && ',' !in conv.streamText(xs[k])
               && conv.stod(conv.streamText(xs[k])) == Some(xs[k])
    ensures FromText(conv, FloatList(held), ToText(conv, FloatList(xs))) == Normal(FloatList(xs))
  {
    var parts := seq(|xs|, k requires 0 <= k < |xs| => conv.streamText(xs[k]));
    Strings.SplitJoin(parts, ',');
    var r := ParseItems(conv, parts);
    assert r.Normal?;
    assert r.state == xs;
  }

  /** The empty list is written as the empty text and read back as empty. */
  lemma EmptyFloatList(conv: Conversions, held: seq<real>)
    ensures ToText(conv, FloatList([])) == ""
    ensures FromText(conv, FloatList(held), "") == Normal(FloatList([]))
  {
  }

  /** Empty items are not skipped: a list text whose first item reads as
      `x` and whose second item is empty (as in `1,,3`) stops at the empty
      item with `x` already pushed, and the parse error escapes. */
  lemma EmptyItemThrows(conv: Conversions, held: seq<real>, first: string, x: real, tail: string)
    requires ',' !in first && conv.stod(first) == Some(x) && conv.stod("") == None
    ensures FromText(conv, FloatList(held), first + ",," + tail) == Thrown(FloatList([x]), ParseFailed)
  {
    var items := Strings.Split(first + ",," + tail, ',');
    assert items == [first] + ([""] + Strings.Split(tail, ',')) by {
      assert first + ",," + tail == first + [','] + ("" + [','] + tail);
      Strings.SplitCons(first, ',', "" + [','] + tail);
      Strings.SplitCons("", ',', tail);
    }
    assert items[0] == first && items[1..] == [""] + Strings.Split(tail, ',');
    assert ParseItems(conv, items[1..]) == Thrown([], ParseFailed);
    assert ParseItems(conv, items) == Thrown([x], ParseFailed) by {
      assert [x] + [] == [x];
    }
  }

  /** An Int read from text keeps only the integral part, toward zero, of
      what `std::stod` reads: "2.7" gives 2 and "-2.7" gives -2. */
  lemma IntTruncates(conv: Conversions, held: int, t: string, u: string)
    requires conv.stod(t) == Some(2.7) && conv.stod(u) == Some(-2.7)
    ensures FromText(conv, Int(held), t) == Normal(Int(2))
    ensures FromText(conv, Int(held), u) == Normal(Int(-2))
  {
  }
}
