/** Worked cases of the text accessors. */
module Examples {
  import opened Wrappers
  import opened TextModel
  import opened Format
  import opened TextString
  import opened Attributed

  /**
   * A formatted key with one `%d` and one argument reads as the key with the
   * argument's description in place of the conversion, as "Count: %d items"
   * with 5 reads "Count: 5 items".
   */
  lemma IntegerArgument(a: string, b: string, v: string)
    requires '%' !in a && '%' !in b
    ensures StringOf(Encode(Localized(a + "%d" + b, true, [v]))) == Ok(Some(a + v + b))
  {
    assert Weave([a, b], ["%d"]) == a + "%d" + b;
    assert Weave([a, b], [v]) == a + v + b;
    FormattedKey([a, b], ["%d"], [v]);
  }

  /**
   * None of the five tokens occurs inside another, so `%lld` and `%ld` each
   * become exactly one placeholder.
   */
  lemma LongConversions(a: string, b: string, c: string)
    requires '%' !in a && '%' !in b && '%' !in c
    ensures RewriteFormat(a + "%lld" + b + "%ld" + c) == a + Placeholder + b + Placeholder + c
  {
    var segments := [a, b, c];
    assert Weave(segments, ["%lld", "%ld"]) == a + "%lld" + b + "%ld" + c;
    assert Placeholders(2) == [Placeholder, Placeholder];
    assert Weave(segments, Placeholders(2)) == a + Placeholder + b + Placeholder + c;
    RewriteWoven(segments, ["%lld", "%ld"]);
  }

  /** A verbatim text node carrying the given modifiers. */
  function StyledVerbatim(s: string, mods: seq<Modifier>): (t: Text)
    ensures Halves(t).None? && StringOf(t) == Ok(Some(s)) && Modifiers(t) == mods
  {
    Text(Some(Storage(Found(s), None)), Found(mods))
  }

  /**
   * Concatenating two styled verbatim texts keeps each one's attributes on its
   * own characters, as "Hello, " in bold followed by "World!" in italic is bold
   * over [0, 7) and italic over [7, 13).
   */
  lemma StyledConcatenation(x: string, mx: seq<Modifier>, y: string, my: seq<Modifier>)
    requires forall i :: 0 <= i < |mx| ==> Recognize(mx[i]).Ok?
    requires forall i :: 0 <= i < |my| ==> Recognize(my[i]).Ok?
    ensures
      var t := Text(Some(Storage(Absent, Some(AnyTextStorage(Found(StyledVerbatim(x, mx)), Found(StyledVerbatim(y, my)), None)))), Absent);
      && StringOf(t) == Ok(Some(x + y))
      && AttributedOf(t).Ok? && AttributedOf(t).value.Some?
      && AttributedOf(t).value.value.text == x + y
      && (forall k :: 0 <= k < |x| ==> AttributesAt(AttributedOf(t).value.value.runs, k) == Contributions(mx))
      && (forall k :: |x| <= k < |x| + |y| ==> AttributesAt(AttributedOf(t).value.value.runs, k) == Contributions(my))
  {
    var first, second := StyledVerbatim(x, mx), StyledVerbatim(y, my);
    var t := Text(Some(Storage(Absent, Some(AnyTextStorage(Found(first), Found(second), None)))), Absent);
    assert Halves(t) == Some((first, second));
    StyleRunsSpec(mx, |x|);
    StyleRunsSpec(my, |y|);
    AttributedConcatenation(t, first, second);
    var xs, ys := AttributedOf(first).value.value, AttributedOf(second).value.value;
    AttributedMatchesString(first);
    ConcatAttributesEverywhere(xs, ys);
    forall k | 0 <= k < |x| ensures AttributesAt(AttributedOf(first).value.value.runs, k) == Contributions(mx) {
      StyledNodeAttributes(first, k);
    }
    forall k | 0 <= k < |y| ensures AttributesAt(AttributedOf(second).value.value.runs, k) == Contributions(my) {
      StyledNodeAttributes(second, k);
    }
  }

  /**
   * A node styled by an "underline" modifier has its plain text, yet its
   * attributed string fails as not supported.
   */
  lemma UnderlineNotSupported(s: string)
    ensures StringOf(StyledVerbatim(s, [Modifier("underline", None, Absent)])) == Ok(Some(s))
    ensures AttributedOf(StyledVerbatim(s, [Modifier("underline", None, Absent)])) == Err(NotSupported("underline"))
  {
    var m := Modifier("underline", None, Absent);
    assert m.description != BoldDescription by { assert |m.description| != |BoldDescription|; }
    assert m.description != "italic" by { assert |m.description| != |"italic"|; }
    UnsupportedModifierFails(StyledVerbatim(s, [m]), 0);
  }
}
