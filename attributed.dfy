/**
 * `attributedString()`: the text of a `Text` node with its style modifiers
 * turned into attributes.
 *
 * An attributed string is its text plus a list of runs; each run gives an
 * attribute and the range `[start, start + length)` it covers.
 */
module Attributed {
  import opened Wrappers
  import opened TextModel
  import opened TextString

  /** The attributes a modifier can contribute, with their payloads. */
  datatype Attribute =
    | Bold
    | Italic
    | Font(size: FontSize, weight: FontWeight, design: FontDesign)
    | Weight(weight: FontWeight)

  datatype Run = Run(start: nat, length: nat, attribute: Attribute)

  /** The value of an attributed string. */
  datatype Styled = Styled(text: string, runs: seq<Run>)

  const Empty: Styled := Styled("", [])

  /** The description of the bold modifier. */
  const BoldDescription: string := "anyTextModifier(SwiftUI.BoldTextModifier)"

  /** The dynamic type name of a system font provider. */
  const SystemProviderType: string := "SystemProvider"

  /** Every run lies within the text. */
  predicate WellFormed(s: Styled)
  {
    forall r <- s.runs :: r.start + r.length <= |s.text|
  }

  /** `runs` moved right by `offset`. */
  function Shift(runs: seq<Run>, offset: nat): seq<Run>
  {
    seq(|runs|, i requires 0 <= i < |runs| => runs[i].(start := runs[i].start + offset))
  }

  /** `append`: the texts one after the other, the second one's runs shifted past the first text. */
  function Concat(a: Styled, b: Styled): Styled
  {
    Styled(a.text + b.text, a.runs + Shift(b.runs, |a.text|))
  }

  /** The attributes of the runs that cover position `k`, in run order. */
  function AttributesAt(runs: seq<Run>, k: int): seq<Attribute>
    decreases |runs|
  {
    if runs == [] then []
    else
      (if runs[0].start <= k < runs[0].start + runs[0].length then [runs[0].attribute] else [])
      + AttributesAt(runs[1..], k)
  }

  // ---------------------------------------------------------------------------
  // The modifier dispatch

  /** A modifier of one of the recognized shapes. */
  predicate Recognized(m: Modifier)
  {
    m.description == BoldDescription || m.description == "italic" ||
    m.fontProvider.Some? || m.weight.Found?
  }

  /**
   * What one modifier contributes: bold and italic by their descriptions, then
   * a font provider (a system one gives a font built from its size, weight and
   * design, which must all resolve; any other gives nothing), then a weight
   * override; anything else is not supported.
   */
  function Recognize(m: Modifier): (r: Result<Option<Attribute>, InspectionError>)
    ensures r.Err? && r.error.NotSupported? ==> r.error.description == m.description
  {
    if m.description == BoldDescription then Ok(Some(Bold))
    else if m.description == "italic" then Ok(Some(Italic))
    else if m.fontProvider.Some? then
      var p := m.fontProvider.value;
      if p.typeName != SystemProviderType then Ok(None)
      else if p.size.None? then Err(NotFound("size"))
      else if p.weight.None? then Err(NotFound("weight"))
      else if p.design.None? then Err(NotFound("design"))
      else Ok(Some(Font(p.size.value, p.weight.value, p.design.value)))
    else if m.weight.Found? then Ok(Some(Weight(m.weight.value)))
    else Err(NotSupported(m.description))
  }

  /** The attribute list contributed by one modifier that does not fail. */
  function Contribution(m: Modifier): seq<Attribute>
  {
    match Recognize(m)
    case Ok(Some(a)) => [a]
    case _ => []
  }

  /** The attributes the modifiers contribute, in modifier order. */
  function Contributions(mods: seq<Modifier>): seq<Attribute>
    decreases |mods|
  {
    if mods == [] then [] else Contribution(mods[0]) + Contributions(mods[1..])
  }

  /**
   * The modifier loop: each modifier, in order, adds its attribute over
   * `[0, length)`; the first one that fails ends the loop with its error.
   */
  function StyleRuns(mods: seq<Modifier>, length: nat): Result<seq<Run>, InspectionError>
    decreases |mods|
  {
    if mods == [] then Ok([])
    else
      match StyleRuns(mods[..|mods| - 1], length)
      case Err(e) => Err(e)
      case Ok(runs) =>
        match Recognize(mods[|mods| - 1])
        case Err(e) => Err(e)
        case Ok(None) => Ok(runs)
        case Ok(Some(a)) => Ok(runs + [Run(0, length, a)])
  }

  /** `runs` covering `[0, length)`, one per attribute. */
  function FullRange(attributes: seq<Attribute>, length: nat): (runs: seq<Run>)
  {
    seq(|attributes|, i requires 0 <= i < |attributes| => Run(0, length, attributes[i]))
  }

  /**
   * `attributedString()`: a concatenation appends its halves' attributed
   * strings (a half without text counts as empty); otherwise the text is
   * `string()`'s, styled by the node's modifiers (none when the list is
   * missing), and no text gives nil.
   */
  function AttributedOf(t: Text): (r: Result<Option<Styled>, InspectionError>)
    ensures Halves(t).Some? && r.Ok? ==> r.value.Some?
    decreases t
  {
    match Halves(t)
    case Some((first, second)) =>
      (match AttributedOf(first)
       case Err(e) => Err(e)
       case Ok(x) =>
         match AttributedOf(second)
         case Err(e) => Err(e)
         case Ok(y) => Ok(Some(Concat(x.GetOr(Empty), y.GetOr(Empty)))))
    case None =>
      match StringOf(t)
      case Err(e) => Err(e)
      case Ok(None) => Ok(None)
      case Ok(Some(s)) =>
        match StyleRuns(Modifiers(t), |s|)
        case Err(e) => Err(e)
        case Ok(runs) => Ok(Some(Styled(s, runs)))
  }

  // ---------------------------------------------------------------------------
  // Properties of append

  lemma ConcatEmpty(b: Styled)
    ensures Concat(Empty, b) == b
  {
    assert Shift(b.runs, 0) == b.runs;
  }

  /** Append adds the lengths, keeps the first runs and shifts the second ones. */
  lemma ConcatLayout(a: Styled, b: Styled)
    ensures |Concat(a, b).text| == |a.text| + |b.text|
    ensures |Concat(a, b).runs| == |a.runs| + |b.runs|
    ensures Concat(a, b).runs[..|a.runs|] == a.runs
    ensures forall i :: 0 <= i < |b.runs| ==>
      Concat(a, b).runs[|a.runs| + i] == Run(b.runs[i].start + |a.text|, b.runs[i].length, b.runs[i].attribute)
  {
  }

  /** Append keeps every run inside the text. */
  lemma ConcatWellFormed(a: Styled, b: Styled)
    requires WellFormed(a) && WellFormed(b)
    ensures WellFormed(Concat(a, b))
  {
    var c := Concat(a, b);
    forall r <- c.runs ensures r.start + r.length <= |c.text| {
      if r !in a.runs {
        var i :| 0 <= i < |c.runs| && c.runs[i] == r;
        assert b.runs[i - |a.runs|] in b.runs;
      }
    }
  }

  lemma {:induction false} AttributesAtAppend(r1: seq<Run>, r2: seq<Run>, k: int)
    ensures AttributesAt(r1 + r2, k) == AttributesAt(r1, k) + AttributesAt(r2, k)
    decreases |r1|
  {
    if r1 != [] {
      assert (r1 + r2)[0] == r1[0];
      assert (r1 + r2)[1..] == r1[1..] + r2;
      AttributesAtAppend(r1[1..], r2, k);
      var head := if r1[0].start <= k < r1[0].start + r1[0].length then [r1[0].attribute] else [];
      assert AttributesAt(r1 + r2, k) == head + (AttributesAt(r1[1..], k) + AttributesAt(r2, k));
      assert AttributesAt(r1, k) == head + AttributesAt(r1[1..], k);
    } else {
      assert r1 + r2 == r2;
    }
  }

  lemma {:induction false} AttributesAtShift(runs: seq<Run>, offset: nat, k: int)
    ensures AttributesAt(Shift(runs, offset), k) == AttributesAt(runs, k - offset)
    decreases |runs|
  {
    if runs != [] {
      assert Shift(runs, offset)[1..] == Shift(runs[1..], offset);
      AttributesAtShift(runs[1..], offset, k);
    }
  }

  /** No run covers a position outside `[0, bound)` when all end by `bound`. */
  lemma {:induction false} AttributesAtOutside(runs: seq<Run>, bound: nat, k: int)
    requires k < 0 || (bound <= k && forall r <- runs :: r.start + r.length <= bound)
    ensures AttributesAt(runs, k) == []
    decreases |runs|
  {
    if runs != [] {
      assert runs[0] in runs;
      assert forall r <- runs[1..] :: r in runs;
      AttributesAtOutside(runs[1..], bound, k);
    }
  }

  /**
   * After append, each position of the first text keeps the first string's
   * attributes and each position of the second text carries the second
   * string's attributes for the matching position.
   */
  lemma ConcatAttributes(a: Styled, b: Styled, k: int)
    requires WellFormed(a)
    requires 0 <= k < |a.text| + |b.text|
    ensures k < |a.text| ==> AttributesAt(Concat(a, b).runs, k) == AttributesAt(a.runs, k)
    ensures |a.text| <= k ==> AttributesAt(Concat(a, b).runs, k) == AttributesAt(b.runs, k - |a.text|)
  {
    AttributesAtAppend(a.runs, Shift(b.runs, |a.text|), k);
    AttributesAtShift(b.runs, |a.text|, k);
    if k < |a.text| {
      AttributesAtOutside(b.runs, |b.text| + |a.text|, k - |a.text|);
    } else {
      AttributesAtOutside(a.runs, |a.text|, k);
    }
  }

  // ---------------------------------------------------------------------------
  // Properties of the modifier dispatch and loop

  /**
   * A modifier is rejected as not supported exactly when it has none of the
   * recognized shapes; a font provider that is not the system one contributes
   * nothing; only a system provider missing a field fails otherwise.
   */
  lemma RecognizeOutcomes(m: Modifier)
    ensures Recognize(m) == Err(NotSupported(m.description)) <==> !Recognized(m)
    ensures Recognize(m) == Ok(None) <==>
      m.description != BoldDescription && m.description != "italic" &&
      m.fontProvider.Some? && m.fontProvider.value.typeName != SystemProviderType
    ensures Recognize(m).Err? && Recognized(m) ==>
      m.description != BoldDescription && m.description != "italic" &&
      m.fontProvider.Some? && m.fontProvider.value.typeName == SystemProviderType &&
      Recognize(m).error in {NotFound("size"), NotFound("weight"), NotFound("design")}
  {
  }

  lemma {:induction false} ContributionsSnoc(mods: seq<Modifier>, m: Modifier)
    ensures Contributions(mods + [m]) == Contributions(mods) + Contribution(m)
    decreases |mods|
  {
    if mods != [] {
      assert (mods + [m])[1..] == mods[1..] + [m];
      ContributionsSnoc(mods[1..], m);
    }
  }

  /**
   * The loop succeeds exactly when every modifier is handled, and then it
   * yields one full-range run per contributed attribute, in modifier order;
   * otherwise its error is that of the first modifier that fails.
   */
  lemma {:induction false} StyleRunsSpec(mods: seq<Modifier>, length: nat)
    ensures StyleRuns(mods, length).Ok? <==> forall i :: 0 <= i < |mods| ==> Recognize(mods[i]).Ok?
    ensures StyleRuns(mods, length).Ok? ==> StyleRuns(mods, length).value == FullRange(Contributions(mods), length)
    ensures StyleRuns(mods, length).Err? ==>
      exists i :: 0 <= i < |mods| && Recognize(mods[i]) == Err(StyleRuns(mods, length).error) &&
        forall j :: 0 <= j < i ==> Recognize(mods[j]).Ok?
    decreases |mods|
  {
    if mods != [] {
      var init, m := mods[..|mods| - 1], mods[|mods| - 1];
      assert mods == init + [m];
      StyleRunsSpec(init, length);
      ContributionsSnoc(init, m);
      if StyleRuns(init, length).Err? {
        var i :| 0 <= i < |init| && Recognize(init[i]) == Err(StyleRuns(init, length).error) &&
          forall j :: 0 <= j < i ==> Recognize(init[j]).Ok?;
        assert mods[i] == init[i];
      } else if Recognize(m).Err? {
        assert Recognize(mods[|mods| - 1]) == Err(StyleRuns(mods, length).error);
      }
    }
  }

  /** Once the loop has failed on a prefix, the remaining modifiers change nothing. */
  lemma {:induction false} StyleRunsErrorSticks(mods: seq<Modifier>, i: nat, length: nat)
    requires i <= |mods|
    requires StyleRuns(mods[..i], length).Err?
    ensures StyleRuns(mods, length) == StyleRuns(mods[..i], length)
    decreases |mods| - i
  {
    if i < |mods| {
      assert mods[..|mods| - 1][..i] == mods[..i];
      StyleRunsErrorSticks(mods[..|mods| - 1], i, length);
    } else {
      assert mods[..i] == mods;
    }
  }

  /** Every position of a styled node's text carries every contributed attribute. */
  lemma {:induction false} FullRangeAttributes(attributes: seq<Attribute>, length: nat, k: int)
    requires 0 <= k < length
    ensures AttributesAt(FullRange(attributes, length), k) == attributes
    decreases |attributes|
  {
    if attributes != [] {
      assert FullRange(attributes, length)[1..] == FullRange(attributes[1..], length);
      FullRangeAttributes(attributes[1..], length, k);
    }
  }

  // ---------------------------------------------------------------------------
  // Properties of attributedString()

  /**
   * The attributed text is `string()`'s text: it succeeds only where
   * `string()` does, is nil exactly where `string()` is, and otherwise has the
   * same characters, with every run inside them.
   */
  lemma {:induction false} AttributedMatchesString(t: Text)
    requires AttributedOf(t).Ok?
    ensures StringOf(t).Ok?
    ensures AttributedOf(t).value.Some? <==> StringOf(t).value.Some?
    ensures AttributedOf(t).value.Some? ==>
      AttributedOf(t).value.value.text == StringOf(t).value.value && WellFormed(AttributedOf(t).value.value)
    decreases t
  {
    match Halves(t)
    case Some((first, second)) =>
      AttributedMatchesString(first);
      AttributedMatchesString(second);
      var x := AttributedOf(first).value.GetOr(Empty);
      var y := AttributedOf(second).value.GetOr(Empty);
      ConcatWellFormed(x, y);
    case None =>
      if StringOf(t).value.Some? {
        var s := StringOf(t).value.value;
        StyleRunsSpec(Modifiers(t), |s|);
        var runs := StyleRuns(Modifiers(t), |s|).value;
        forall r <- runs ensures r.start + r.length <= |s| {
          var i :| 0 <= i < |runs| && runs[i] == r;
        }
      }
  }

  /**
   * After append, the positions of the first text keep the first string's
   * attributes and those of the second text carry the second string's.
   */
  lemma ConcatAttributesEverywhere(x: Styled, y: Styled)
    requires WellFormed(x)
    ensures forall k :: 0 <= k < |x.text| + |y.text| ==>
      AttributesAt(Concat(x, y).runs, k) ==
        if k < |x.text| then AttributesAt(x.runs, k) else AttributesAt(y.runs, k - |x.text|)
  {
    forall k | 0 <= k < |x.text| + |y.text|
      ensures AttributesAt(Concat(x, y).runs, k) ==
        if k < |x.text| then AttributesAt(x.runs, k) else AttributesAt(y.runs, k - |x.text|)
    {
      ConcatAttributes(x, y, k);
    }
  }

  /** A node that is not a concatenation and has no text has no attributed string either, and no error. */
  lemma NilStringGivesNil(t: Text)
    requires Halves(t).None? && StringOf(t) == Ok(None)
    ensures AttributedOf(t) == Ok(None)
  {
  }

  /** When `string()` throws, `attributedString()` throws too. */
  lemma {:induction false} StringErrorPropagates(t: Text)
    requires StringOf(t).Err?
    ensures AttributedOf(t).Err?
    decreases t
  {
    match Halves(t)
    case Some((first, second)) =>
      if StringOf(first).Err? {
        StringErrorPropagates(first);
      } else {
        StringErrorPropagates(second);
        if AttributedOf(first).Ok? {
          AttributedMatchesString(first);
        }
      }
    case None =>
  }

  /**
   * A concatenation's attributed string is its halves' appended, a half
   * without text counting as empty, so that the lengths add up; an error in a
   * half is the result.
   */
  lemma AttributedConcatenation(t: Text, first: Text, second: Text)
    requires Halves(t) == Some((first, second))
    ensures AttributedOf(first).Err? ==> AttributedOf(t) == AttributedOf(first)
    ensures AttributedOf(first).Ok? && AttributedOf(second).Err? ==> AttributedOf(t) == AttributedOf(second)
    ensures AttributedOf(first).Ok? && AttributedOf(second).Ok? ==>
      var x := AttributedOf(first).value.GetOr(Empty);
      var y := AttributedOf(second).value.GetOr(Empty);
      AttributedOf(t) == Ok(Some(Concat(x, y))) && |Concat(x, y).text| == |x.text| + |y.text|
  {
    if AttributedOf(first).Err? {
    } else if AttributedOf(second).Err? {
    } else {
    }
  }

  /**
   * A node that is not a concatenation carries, at every position of its
   * text, exactly the attributes its modifiers contribute, in order; with no
   * modifier list it carries none.
   */
  lemma StyledNodeAttributes(t: Text, k: int)
    requires Halves(t).None?
    requires AttributedOf(t).Ok? && AttributedOf(t).value.Some?
    requires 0 <= k < |AttributedOf(t).value.value.text|
    ensures AttributesAt(AttributedOf(t).value.value.runs, k) == Contributions(Modifiers(t))
    ensures !t.modifiers.Found? ==> AttributedOf(t).value.value.runs == []
  {
    var s := StringOf(t).value.value;
    StyleRunsSpec(Modifiers(t), |s|);
    FullRangeAttributes(Contributions(Modifiers(t)), |s|, k);
  }

  /**
   * One modifier of no recognized shape fails the whole attributed string
   * when every modifier before it is handled, while the plain text is still
   * available.
   */
  lemma UnsupportedModifierFails(t: Text, i: nat)
    requires Halves(t).None? && StringOf(t).Ok? && StringOf(t).value.Some?
    requires i < |Modifiers(t)| && !Recognized(Modifiers(t)[i])
    requires forall j :: 0 <= j < i ==> Recognize(Modifiers(t)[j]).Ok?
    ensures AttributedOf(t) == Err(NotSupported(Modifiers(t)[i].description))
  {
    var mods := Modifiers(t);
    var s := StringOf(t).value.value;
    RecognizeOutcomes(mods[i]);
    StyleRunsSpec(mods, |s|);
    if StyleRuns(mods, |s|).Err? {
      var j :| 0 <= j < |mods| && Recognize(mods[j]) == Err(StyleRuns(mods, |s|).error) &&
        forall j' :: 0 <= j' < j ==> Recognize(mods[j']).Ok?;
      assert j == i;
    }
  }

  // ---------------------------------------------------------------------------
  // The mutable attributed string and the accessor

  /** `NSMutableAttributedString`: a text and the runs of attributes laid on it. */
  class MutableAttributedString {
    var text: string
    var runs: seq<Run>

    /** The current value. */
    function Value(): Styled
      reads this
    {
      Styled(text, runs)
    }

    /** Every run lies within the text. */
    ghost predicate Valid()
      reads this
    {
      WellFormed(Value())
    }

    /** `NSMutableAttributedString(string:)`: the text with no attributes. */
    constructor (s: string)
      ensures Valid() && Value() == Styled(s, [])
    {
      text := s;
      runs := [];
    }

    /** `length`, counted in characters. */
    function Length(): (n: nat)
      reads this
      ensures n == |Value().text|
    {
      |text|
    }

    /** `append(_:)`. */
    method Append(other: Styled)
      requires Valid() && WellFormed(other)
      modifies this
      ensures Valid() && Value() == Concat(old(Value()), other)
    {
      ConcatWellFormed(Value(), other);
      runs := runs + Shift(other.runs, |text|);
      text := text + other.text;
    }

    /** `addAttributes(_:range:)` for one attribute over `[start, start + length)`. */
    method AddAttribute(attribute: Attribute, start: nat, length: nat)
      requires Valid() && start + length <= |Value().text|
      modifies this
      ensures Valid() && Value() == Styled(old(text), old(runs) + [Run(start, length, attribute)])
    {
      runs := runs + [Run(start, length, attribute)];
    }
  }

  /** The value held by an accessor's result, read out of the object it returns. */
  function Snapshot(r: Result<Option<MutableAttributedString>, InspectionError>): Result<Option<Styled>, InspectionError>
    reads if r.Ok? && r.value.Some? then {r.value.value} else {}
  {
    match r
    case Err(e) => Err(e)
    case Ok(None) => Ok(None)
    case Ok(Some(s)) => Ok(Some(s.Value()))
  }

  /**
   * `attributedString()`: builds a fresh attributed string whose value is
   * `AttributedOf(t)`.
   */
  method AttributedString(t: Text) returns (r: Result<Option<MutableAttributedString>, InspectionError>)
    ensures r.Ok? && r.value.Some? ==> fresh(r.value.value) && r.value.value.Valid()
    ensures Snapshot(r) == AttributedOf(t)
    decreases t
  {
    var halves := Halves(t);
    if halves.Some? {
      var first, second := halves.value.0, halves.value.1;
      var combination := new MutableAttributedString("");
      var x := AttributedString(first);
      if x.Err? {
        return Err(x.error);
      }
      var xValue := if x.value.Some? then x.value.value.Value() else Empty;
      combination.Append(xValue);
      var y := AttributedString(second);
      if y.Err? {
        return Err(y.error);
      }
      var yValue := if y.value.Some? then y.value.value.Value() else Empty;
      combination.Append(yValue);
      ConcatEmpty(xValue);
      return Ok(Some(combination));
    }
    var plain := StringOf(t);
    if plain.Err? {
      return Err(plain.error);
    }
    if plain.value.None? {
      return Ok(None);
    }
    var s := plain.value.value;
    var styled := new MutableAttributedString(s);
    var length := styled.Length();
    var mods := Modifiers(t);
    for i := 0 to |mods|
      invariant styled.Valid() && styled.text == s
      invariant StyleRuns(mods[..i], length) == Ok(styled.runs)
    {
      var m := mods[i];
      assert mods[..i + 1][..i] == mods[..i] && mods[..i + 1][i] == m;
      if m.description == BoldDescription {
        styled.AddAttribute(Bold, 0, length);
      } else if m.description == "italic" {
        styled.AddAttribute(Italic, 0, length);
      } else if m.fontProvider.Some? {
        var provider := m.fontProvider.value;
        if provider.typeName == SystemProviderType {
          if provider.size.None? || provider.weight.None? || provider.design.None? {
            var e := if provider.size.None? then NotFound("size")
              else if provider.weight.None? then NotFound("weight") else NotFound("design");
            StyleRunsErrorSticks(mods, i + 1, length);
            return Err(e);
          }
          styled.AddAttribute(Font(provider.size.value, provider.weight.value, provider.design.value), 0, length);
        }
      } else if m.weight.Found? {
        styled.AddAttribute(Weight(m.weight.value), 0, length);
      } else {
        StyleRunsErrorSticks(mods, i + 1, length);
        return Err(NotSupported(m.description));
      }
    }
    assert mods[..|mods|] == mods;
    return Ok(Some(styled));
  }
}
