/** The array control of the playground's prop panel: how the text typed
    into its textarea becomes the array the prop receives, how an array
    value is written back into the textarea, and the hint shown under it. */
module Controls {
  import opened Wrappers
  import opened Text
  import opened ManifestSchema

  /** An element of an array prop value: text, a flag, or a number. */
  datatype Item = TextItem(text: string) | FlagItem(flag: bool) | NumberItem(x: real)

  /** What the control is handed as its current value: an array, or
      anything else (`Array.isArray` fails). */
  datatype ControlValue = ArrayValue(items: seq<Item>) | NotAnArray

  /** A part as it survives splitting at commas, trimming and dropping
      empty parts. */
  predicate Plain(s: string) {
    |s| > 0 && IsTrimmed(s) && ',' !in s
  }

  // ---------------------------------------------------------------------
  // From text to an array (`parseArrayInput`).

  /** The trimmed pieces that are not empty, in order. */
  function NonEmptyTrimmed(pieces: seq<string>): (ps: seq<string>)
    ensures |ps| <= |pieces|
    ensures forall i :: 0 <= i < |ps| ==> |ps[i]| > 0 && IsTrimmed(ps[i])
  {
    if |pieces| == 0 then []
    else
      var p := Trim(pieces[0]);
      (if |p| > 0 then [p] else []) + NonEmptyTrimmed(pieces[1..])
  }

  /** Pieces without a comma give plain parts. */
  lemma {:induction false} NonEmptyTrimmedPlain(pieces: seq<string>)
    requires forall i :: 0 <= i < |pieces| ==> ',' !in pieces[i]
    ensures forall i :: 0 <= i < |NonEmptyTrimmed(pieces)| ==> Plain(NonEmptyTrimmed(pieces)[i])
    decreases |pieces|
  {
    if |pieces| > 0 {
      assert forall i :: 0 <= i < |pieces[1..]| ==> ',' !in pieces[1..][i] by {
        forall i | 0 <= i < |pieces[1..]| ensures ',' !in pieces[1..][i] { assert pieces[1..][i] == pieces[i + 1]; }
      }
      NonEmptyTrimmedPlain(pieces[1..]);
      TrimOmits(pieces[0], ',');
    }
  }

  /** `raw.split(',').map(part => part.trim()).filter(part => part.length > 0)`. */
  function Parts(raw: string): (ps: seq<string>)
    ensures forall i :: 0 <= i < |ps| ==> Plain(ps[i])
  {
    SplitPartsFree(raw, ',');
    NonEmptyTrimmedPlain(Split(raw, ','));
    NonEmptyTrimmed(Split(raw, ','))
  }

  /** What one part becomes for the element definition, if it is kept:
      numbers through `Number(part)` (`None` standing for `NaN`), flags
      through a case-insensitive `true`/`false`, options only when listed,
      text as it is. */
  function Convert(part: string, element: BaseDef, toNumber: string -> Option<real>): (r: Option<Item>)
    ensures r.Some? ==> Fits(r.value, element)
    ensures element.StringDef? ==> r == Some(TextItem(part))
    ensures element.NumberDef? ==> (r.Some? <==> toNumber(part).Some?)
    ensures (element.UnionDef? || element.EnumDef?) ==> (r.Some? <==> part in element.options)
    ensures (element.UnionDef? || element.EnumDef?) && r.Some? ==> r.value == TextItem(part)
  {
    match element
    case StringDef => Some(TextItem(part))
    case NumberDef => if toNumber(part).Some? then Some(NumberItem(toNumber(part).value)) else None
    case BooleanDef =>
      var lower := ToLowerAscii(part);
      if lower == "true" then Some(FlagItem(true))
      else if lower == "false" then Some(FlagItem(false))
      else None
    case UnionDef(options) => if part in options then Some(TextItem(part)) else None
    case EnumDef(options, _) => if part in options then Some(TextItem(part)) else None
  }

  /** An item is of the kind the element definition asks for; an option
      item is one of the options. */
  predicate Fits(item: Item, element: BaseDef) {
    match element
    case StringDef => item.TextItem?
    case NumberDef => item.NumberItem?
    case BooleanDef => item.FlagItem?
    case UnionDef(options) => item.TextItem? && item.text in options
    case EnumDef(options, _) => item.TextItem? && item.text in options
  }

  /** The parts that convert, converted, in order. */
  function Converted(parts: seq<string>, element: BaseDef, toNumber: string -> Option<real>): (r: seq<Item>)
    ensures |r| <= |parts|
    ensures forall i :: 0 <= i < |r| ==> Fits(r[i], element)
    ensures forall i :: 0 <= i < |r| && r[i].TextItem? ==> r[i].text in parts
  {
    if |parts| == 0 then []
    else
      var c := Convert(parts[0], element, toNumber);
      (if c.Some? then [c.value] else []) + Converted(parts[1..], element, toNumber)
  }

  /** Every part that converts is kept. */
  lemma {:induction false} ConvertedKeeps(parts: seq<string>, element: BaseDef, toNumber: string -> Option<real>, j: int)
    requires 0 <= j < |parts| && Convert(parts[j], element, toNumber).Some?
    ensures Convert(parts[j], element, toNumber).value in Converted(parts, element, toNumber)
    decreases |parts|
  {
    if j > 0 {
      assert parts[j] == parts[1..][j - 1];
      ConvertedKeeps(parts[1..], element, toNumber, j - 1);
    }
  }

  /** Flags are read regardless of case, and any other word is dropped:
      the parts `True`, `no`, `FALSE` give the flags true and false. */
  lemma MixedCaseFlags(toNumber: string -> Option<real>)
    ensures Converted(["True", "no", "FALSE"], BooleanDef, toNumber) == [FlagItem(true), FlagItem(false)]
  {
    assert ToLowerAscii("True") == "true";
    assert ToLowerAscii("no") == "no";
    assert ToLowerAscii("FALSE") == "false";
    assert ["True", "no", "FALSE"][1..] == ["no", "FALSE"];
    assert ["no", "FALSE"][1..] == ["FALSE"];
  }

  /** `parseArrayInput(raw, element)`: the items of the kind the element
      asks for, taken from the non-empty comma-separated parts of `raw`. */
  function ParseArrayInput(raw: string, element: BaseDef, toNumber: string -> Option<real>): (r: seq<Item>)
    ensures |r| <= |Parts(raw)|
    ensures forall i :: 0 <= i < |r| ==> Fits(r[i], element)
    ensures forall i :: 0 <= i < |r| && r[i].TextItem? ==> r[i].text in Parts(raw) && Plain(r[i].text)
  {
    Converted(Parts(raw), element, toNumber)
  }

  /** Filtering the pieces of two lists is filtering each, in order. */
  lemma {:induction false} NonEmptyTrimmedConcat(a: seq<string>, b: seq<string>)
    ensures NonEmptyTrimmed(a + b) == NonEmptyTrimmed(a) + NonEmptyTrimmed(b)
    decreases |a|
  {
    if |a| == 0 {
      assert a + b == b;
    } else {
      assert (a + b)[0] == a[0];
      assert (a + b)[1..] == a[1..] + b;
      NonEmptyTrimmedConcat(a[1..], b);
    }
  }

  /** One piece is kept trimmed exactly when trimming leaves something. */
  lemma NonEmptyTrimmedOne(p: string)
    ensures NonEmptyTrimmed([p]) == if |Trim(p)| > 0 then [Trim(p)] else []
  {
    assert [p][1..] == [];
  }

  /** The parts on either side of a comma are the parts of each side, in
      order. */
  lemma PartsConcat(s: string, t: string)
    ensures Parts(s + "," + t) == Parts(s) + Parts(t)
  {
    assert s + "," + t == s + [','] + t;
    SplitConcat(s, t, ',');
    NonEmptyTrimmedConcat(Split(s, ','), Split(t, ','));
  }

  /** Text without a comma is one part, its trimmed self, unless that is
      empty. */
  lemma PartsOne(s: string)
    requires ',' !in s
    ensures Parts(s) == if |Trim(s)| > 0 then [Trim(s)] else []
  {
    SplitWithout(s, ',');
    NonEmptyTrimmedOne(s);
  }

  /** Converting the parts of two lists is converting each, in order. */
  lemma {:induction false} ConvertedConcat(a: seq<string>, b: seq<string>, element: BaseDef, toNumber: string -> Option<real>)
    ensures Converted(a + b, element, toNumber) == Converted(a, element, toNumber) + Converted(b, element, toNumber)
    decreases |a|
  {
    if |a| == 0 {
      assert a + b == b;
    } else {
      assert (a + b)[0] == a[0];
      assert (a + b)[1..] == a[1..] + b;
      ConvertedConcat(a[1..], b, element, toNumber);
    }
  }

  /** One part is kept, converted, exactly when it converts. */
  lemma ConvertedOne(p: string, element: BaseDef, toNumber: string -> Option<real>)
    ensures Converted([p], element, toNumber) ==
            if Convert(p, element, toNumber).Some? then [Convert(p, element, toNumber).value] else []
  {
    assert [p][1..] == [];
  }

  /** Flags ignore case: a part is a flag exactly when its lower-case form
      is `true` or `false`, it is the flag that form names, and two parts
      that differ only in case give the same result. */
  lemma FlagsIgnoreCase(p: string, q: string, toNumber: string -> Option<real>)
    ensures Convert(p, BooleanDef, toNumber).Some? <==> ToLowerAscii(p) == "true" || ToLowerAscii(p) == "false"
    ensures Convert(p, BooleanDef, toNumber).Some? ==> Convert(p, BooleanDef, toNumber).value == FlagItem(ToLowerAscii(p) == "true")
    ensures ToLowerAscii(p) == ToLowerAscii(q) ==> Convert(p, BooleanDef, toNumber) == Convert(q, BooleanDef, toNumber)
  {
  }

  /** The items typed on either side of a comma are the items of each
      side, in order. */
  lemma ParseArrayInputConcat(s: string, t: string, element: BaseDef, toNumber: string -> Option<real>)
    ensures ParseArrayInput(s + "," + t, element, toNumber) ==
            ParseArrayInput(s, element, toNumber) + ParseArrayInput(t, element, toNumber)
  {
    PartsConcat(s, t);
    ConvertedConcat(Parts(s), Parts(t), element, toNumber);
  }

  /** Text without a comma gives at most one item: its trimmed self,
      converted, when that is not empty and converts. */
  lemma ParseArrayInputOne(s: string, element: BaseDef, toNumber: string -> Option<real>)
    requires ',' !in s
    ensures ParseArrayInput(s, element, toNumber) ==
            if |Trim(s)| > 0 && Convert(Trim(s), element, toNumber).Some?
            then [Convert(Trim(s), element, toNumber).value] else []
  {
    PartsOne(s);
    if |Trim(s)| > 0 {
      ConvertedOne(Trim(s), element, toNumber);
    }
  }

  // ---------------------------------------------------------------------
  // From an array back to text, and the hint.

  function ShowItem(item: Item, showNumber: real -> string): string {
    match item
    case TextItem(s) => s
    case FlagItem(b) => if b then "true" else "false"
    case NumberItem(x) => showNumber(x)
  }

  function Shown(items: seq<Item>, showNumber: real -> string): (ss: seq<string>)
    ensures |ss| == |items|
    ensures forall i :: 0 <= i < |items| ==> ss[i] == ShowItem(items[i], showNumber)
  {
    seq(|items|, i requires 0 <= i < |items| => ShowItem(items[i], showNumber))
  }

  /** The textarea's text: an array joined with ", ", anything else as
      the empty string. */
  function SerializedValue(v: ControlValue, showNumber: real -> string): (s: string)
    ensures v.NotAnArray? ==> s == ""
    ensures v.ArrayValue? && |v.items| == 0 ==> s == ""
    ensures v.ArrayValue? && |v.items| == 1 ==> s == ShowItem(v.items[0], showNumber)
  {
    if v.ArrayValue? then Join(Shown(v.items, showNumber), ", ") else ""
  }

  /** `describeArrayElement`: a fixed sentence per primitive kind, the
      option list for unions and enums. */
  function DescribeArrayElement(element: BaseDef): (s: string)
    ensures StartsWith(s, "Allowed values: ") <==> element.IsOption()
    ensures element.IsOption() ==> s[|"Allowed values: "|..] == Join(element.options, ", ")
    ensures element.StringDef? ==> s == "Comma-separated text values"
    ensures element.NumberDef? ==> s == "Comma-separated numbers"
    ensures element.BooleanDef? ==> s == "Comma-separated true/false values"
  {
    match element
    case StringDef => assert "Comma-separated text values"[0] != "Allowed values: "[0]; "Comma-separated text values"
    case NumberDef => assert "Comma-separated numbers"[0] != "Allowed values: "[0]; "Comma-separated numbers"
    case BooleanDef => assert "Comma-separated true/false values"[0] != "Allowed values: "[0]; "Comma-separated true/false values"
    case UnionDef(options) => "Allowed values: " + Join(options, ", ")
    case EnumDef(options, _) => "Allowed values: " + Join(options, ", ")
  }

  // ---------------------------------------------------------------------
  // Round trips.

  /** Each piece after the first, as `", "`-joining leaves it once the
      text is split at commas: behind one space. */
  function Spaced(xs: seq<string>): (ys: seq<string>)
    ensures |ys| == |xs|
    ensures forall i :: 0 <= i < |xs| ==> ys[i] == " " + xs[i]
  {
    seq(|xs|, i requires 0 <= i < |xs| => " " + xs[i])
  }

  lemma JoinLeadingSpace(a: string, rest: seq<string>, sep: string)
    ensures Join([" " + a] + rest, sep) == " " + Join([a] + rest, sep)
  {
    if |rest| > 0 {
      assert ([" " + a] + rest)[1..] == rest;
      assert ([a] + rest)[1..] == rest;
    }
  }

  /** Joining with ", " is joining with "," after putting a space in front
      of every part but the first. */
  lemma {:induction false} JoinCommaSpace(xs: seq<string>)
    requires |xs| >= 1
    ensures Join(xs, ", ") == Join([xs[0]] + Spaced(xs[1..]), ",")
    decreases |xs|
  {
    if |xs| == 1 {
      assert [xs[0]] + Spaced(xs[1..]) == [xs[0]];
    } else {
      var tail := xs[1..];
      JoinCommaSpace(tail);
      var ys := [xs[0]] + Spaced(tail);
      assert ys[1..] == Spaced(tail);
      assert Spaced(tail) == [" " + tail[0]] + Spaced(tail[1..]);
      JoinLeadingSpace(tail[0], Spaced(tail[1..]), ",");
      assert Join(xs, ", ") == xs[0] + ", " + Join(tail, ", ");
      assert Join(ys, ",") == xs[0] + "," + Join(Spaced(tail), ",");
    }
  }

  /** A plain part with one space in front trims back to itself. */
  lemma TrimOneSpace(x: string)
    requires Plain(x)
    ensures Trim(" " + x) == x
  {
    TrimAfterSpaces(" ", x);
  }

  /** A first piece that trims to a non-empty part is kept in front. */
  lemma NonEmptyTrimmedHead(pieces: seq<string>, x: string)
    requires |pieces| > 0 && Trim(pieces[0]) == x && |x| > 0
    ensures NonEmptyTrimmed(pieces) == [x] + NonEmptyTrimmed(pieces[1..])
  {
  }

  /** Every part is plain, one part at a time. */
  predicate AllPlain(xs: seq<string>)
    decreases |xs|
  {
    |xs| == 0 || (Plain(xs[0]) && AllPlain(xs[1..]))
  }

  lemma {:induction false} AllPlainEach(xs: seq<string>)
    requires forall i :: 0 <= i < |xs| ==> Plain(xs[i])
    ensures AllPlain(xs)
    decreases |xs|
  {
    if |xs| > 0 {
      assert forall i :: 0 <= i < |xs[1..]| ==> Plain(xs[1..][i]) by {
        forall i | 0 <= i < |xs[1..]| ensures Plain(xs[1..][i]) { assert xs[1..][i] == xs[i + 1]; }
      }
      AllPlainEach(xs[1..]);
    }
  }

  lemma {:induction false} TrimSpaced(xs: seq<string>)
    requires AllPlain(xs)
    ensures NonEmptyTrimmed(Spaced(xs)) == xs
    decreases |xs|
  {
    if |xs| > 0 {
      var ys := Spaced(xs);
      assert ys[0] == " " + xs[0];
      TrimOneSpace(xs[0]);
      NonEmptyTrimmedHead(ys, xs[0]);
      assert ys[1..] == Spaced(xs[1..]);
      TrimSpaced(xs[1..]);
      assert [xs[0]] + xs[1..] == xs;
    }
  }

  /** Splitting a `", "`-joined list of plain parts gives the parts back. */
  lemma PartsOfJoined(xs: seq<string>)
    requires forall i :: 0 <= i < |xs| ==> Plain(xs[i])
    ensures Parts(Join(xs, ", ")) == xs
  {
    if |xs| == 0 {
      assert Split("", ',') == [""];
      assert Trim("") == "";
      assert NonEmptyTrimmed([""]) == [];
    } else {
      var ys := [xs[0]] + Spaced(xs[1..]);
      JoinCommaSpace(xs);
      SpacedCommaFree(xs);
      SplitOfJoin(ys, ',');
      assert Split(Join(xs, ", "), ',') == ys;
      AllPlainEach(xs);
      TrimSpacedAfterFirst(xs);
    }
  }

  lemma SpacedCommaFree(xs: seq<string>)
    requires |xs| >= 1
    requires forall i :: 0 <= i < |xs| ==> Plain(xs[i])
    ensures forall i :: 0 <= i < |[xs[0]] + Spaced(xs[1..])| ==> ',' !in ([xs[0]] + Spaced(xs[1..]))[i]
  {
    var ys := [xs[0]] + Spaced(xs[1..]);
    forall i | 0 <= i < |ys| ensures ',' !in ys[i] {
      if i > 0 {
        assert ys[i] == " " + xs[i];
        assert ',' !in xs[i];
      }
    }
  }

  lemma TrimSpacedAfterFirst(xs: seq<string>)
    requires |xs| >= 1 && AllPlain(xs)
    ensures NonEmptyTrimmed([xs[0]] + Spaced(xs[1..])) == xs
  {
    var ys := [xs[0]] + Spaced(xs[1..]);
    assert ys[1..] == Spaced(xs[1..]);
    TrimKeepsTrimmed(xs[0]);
    NonEmptyTrimmedHead(ys, xs[0]);
    TrimSpaced(xs[1..]);
    assert [xs[0]] + xs[1..] == xs;
  }

  /** An item survives being shown and converted back. */
  predicate RoundTrips(item: Item, element: BaseDef, toNumber: string -> Option<real>, showNumber: real -> string) {
    Fits(item, element) && Plain(ShowItem(item, showNumber))
    && (item.NumberItem? ==> toNumber(showNumber(item.x)) == Some(item.x))
  }

  lemma ConvertShown(item: Item, element: BaseDef, toNumber: string -> Option<real>, showNumber: real -> string)
    requires RoundTrips(item, element, toNumber, showNumber)
    ensures Convert(ShowItem(item, showNumber), element, toNumber) == Some(item)
  {
    if item.FlagItem? {
      assert ToLowerAscii("true") == "true";
      assert ToLowerAscii("false") == "false";
    }
  }

  lemma {:induction false} ConvertedShown(items: seq<Item>, element: BaseDef, toNumber: string -> Option<real>, showNumber: real -> string)
    requires forall i :: 0 <= i < |items| ==> RoundTrips(items[i], element, toNumber, showNumber)
    ensures Converted(Shown(items, showNumber), element, toNumber) == items
    decreases |items|
  {
    if |items| > 0 {
      ConvertShown(items[0], element, toNumber, showNumber);
      assert Shown(items, showNumber)[1..] == Shown(items[1..], showNumber);
      ConvertedShown(items[1..], element, toNumber, showNumber);
      assert [items[0]] + items[1..] == items;
    }
  }

  /** Writing an array into the textarea and reading it back gives the
      array again, when every item is of the element's kind and shows as a
      plain part (and a number reads back as itself). */
  lemma ArrayRoundTrip(items: seq<Item>, element: BaseDef, toNumber: string -> Option<real>, showNumber: real -> string)
    requires forall i :: 0 <= i < |items| ==> RoundTrips(items[i], element, toNumber, showNumber)
    ensures ParseArrayInput(SerializedValue(ArrayValue(items), showNumber), element, toNumber) == items
  {
    PartsOfJoined(Shown(items, showNumber));
    ConvertedShown(items, element, toNumber, showNumber);
  }

  /** For text, flags and options, what the textarea shows after an edit
      reads back as the same array: the control is stable under
      re-rendering. */
  lemma ReparseStable(raw: string, element: BaseDef, toNumber: string -> Option<real>, showNumber: real -> string)
    requires !element.NumberDef?
    ensures var items := ParseArrayInput(raw, element, toNumber);
            ParseArrayInput(SerializedValue(ArrayValue(items), showNumber), element, toNumber) == items
  {
    var items := ParseArrayInput(raw, element, toNumber);
    forall i | 0 <= i < |items| ensures RoundTrips(items[i], element, toNumber, showNumber) {
      ParsedItemRoundTrips(items[i], element, toNumber, showNumber);
    }
    ArrayRoundTrip(items, element, toNumber, showNumber);
  }

  lemma ParsedItemRoundTrips(item: Item, element: BaseDef, toNumber: string -> Option<real>, showNumber: real -> string)
    requires !element.NumberDef? && Fits(item, element)
    requires item.TextItem? ==> Plain(item.text)
    ensures RoundTrips(item, element, toNumber, showNumber)
  {
    if item.FlagItem? {
      assert ShowItem(item, showNumber) == "true" || ShowItem(item, showNumber) == "false";
      assert Plain("true") && Plain("false");
    }
  }

  /** The option list in the hint splits back into the options, when each
      is a plain part. */
  lemma DescribedOptions(element: BaseDef)
    requires element.IsOption()
    requires forall i :: 0 <= i < |element.options| ==> Plain(element.options[i])
    ensures Parts(DescribeArrayElement(element)[|"Allowed values: "|..]) == element.options
  {
    PartsOfJoined(element.options);
  }

  /** Text made only of commas and blanks. */
  predicate Blank(s: string) {
    forall i :: 0 <= i < |s| ==> s[i] == ',' || IsSpace(s[i])
  }

  lemma {:induction false} BlankSplit(s: string)
    requires Blank(s)
    ensures forall i :: 0 <= i < |Split(s, ',')| ==> AllSpace(Split(s, ',')[i])
    decreases |s|
  {
    if |s| > 0 {
      assert Blank(s[1..]) by {
        forall k | 0 <= k < |s[1..]| ensures s[1..][k] == ',' || IsSpace(s[1..][k]) { assert s[1..][k] == s[k + 1]; }
      }
      BlankSplit(s[1..]);
      var rest := Split(s[1..], ',');
      if s[0] != ',' {
        var first := [s[0]] + rest[0];
        assert AllSpace(first) by {
          forall k | 0 <= k < |first| ensures IsSpace(first[k]) {
            if k > 0 { assert first[k] == rest[0][k - 1]; }
          }
        }
        assert forall i :: 1 <= i < |Split(s, ',')| ==> Split(s, ',')[i] == rest[i];
      }
    }
  }

  predicate AllSpace(s: string) {
    forall i :: 0 <= i < |s| ==> IsSpace(s[i])
  }

  lemma {:induction false} BlankPiecesVanish(pieces: seq<string>)
    requires forall i :: 0 <= i < |pieces| ==> AllSpace(pieces[i])
    ensures NonEmptyTrimmed(pieces) == []
    decreases |pieces|
  {
    if |pieces| > 0 {
      TrimStartSpaces(pieces[0], "");
      assert pieces[0] + "" == pieces[0];
      BlankPiecesVanish(pieces[1..]);
    }
  }

  /** Blank or comma-only input gives the empty list, whatever the element. */
  lemma BlankInputGivesNothing(raw: string, element: BaseDef, toNumber: string -> Option<real>)
    requires Blank(raw)
    ensures ParseArrayInput(raw, element, toNumber) == []
  {
    BlankSplit(raw);
    BlankPiecesVanish(Split(raw, ','));
  }

  /** For a text element the result is exactly the parts, in order. */
  lemma {:induction false} TextElementKeepsParts(parts: seq<string>, toNumber: string -> Option<real>)
    ensures |Converted(parts, StringDef, toNumber)| == |parts|
    ensures forall i :: 0 <= i < |parts| ==> Converted(parts, StringDef, toNumber)[i] == TextItem(parts[i])
    decreases |parts|
  {
    if |parts| > 0 {
      TextElementKeepsParts(parts[1..], toNumber);
      var r := Converted(parts, StringDef, toNumber);
      assert r == [TextItem(parts[0])] + Converted(parts[1..], StringDef, toNumber);
      forall i | 1 <= i < |parts| ensures r[i] == TextItem(parts[i]) { assert parts[i] == parts[1..][i - 1]; }
    }
  }
}
