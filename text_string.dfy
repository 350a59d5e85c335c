/**
 * `string()`: the plain text of a `Text` node, found by trying three shapes in
 * a fixed order: a concatenation of two texts, a verbatim string, and a
 * localization key whose format is filled with its arguments.
 */
module TextString {
  import opened Wrappers
  import opened TextModel
  import opened Format

  /**
   * The descriptions of the arguments' `value` labels, in order; the first
   * argument without a `value` makes the whole map throw.
   */
  function Descriptions(args: seq<FormatArgument>): (r: Result<seq<string>, InspectionError>)
    ensures r.Ok? <==> forall i :: 0 <= i < |args| ==> args[i].value.Some?
    ensures r.Ok? ==> |r.value| == |args| && forall i :: 0 <= i < |args| ==> r.value[i] == args[i].value.value
    ensures r.Err? ==> r.error == NotFound("value")
    decreases |args|
  {
    if args == [] then Ok([])
    else if args[0].value.None? then Err(NotFound("value"))
    else
      match Descriptions(args[1..])
      case Err(e) => Err(e)
      case Ok(vs) => Ok([args[0].value.value] + vs)
  }

  /**
   * The third shape: `storage|anyTextStorage` and its `key` must resolve (else
   * the call throws); the labels `key`, `hasFormatting` and `arguments` throw
   * when missing and give nil when of the wrong type.
   */
  function LocalizedString(t: Text): (r: Result<Option<string>, InspectionError>)
  {
    if t.storage.None? || t.storage.value.anyTextStorage.None? then Err(NotFound("storage|anyTextStorage"))
    else
      var storage := t.storage.value.anyTextStorage.value;
      if storage.key.None? then Err(NotFound("key"))
      else
        var key := storage.key.value;
        match key.key
        case Absent => Err(NotFound("key"))
        case Mistyped => Ok(None)
        case Found(base) =>
          match key.hasFormatting
          case Absent => Err(NotFound("hasFormatting"))
          case Mistyped => Ok(None)
          case Found(hasFormatting) =>
            if !hasFormatting then Ok(Some(base))
            else
              match key.arguments
              case Absent => Err(NotFound("arguments"))
              case Mistyped => Ok(None)
              case Found(args) =>
                match Descriptions(args)
                case Err(e) => Err(e)
                case Ok(values) => Ok(Some(Substitute(RewriteFormat(base), values)))
  }

  /**
   * `string()`: a concatenation gives its halves' texts one after the other
   * (a half without text counts as empty, an error in a half propagates);
   * otherwise a verbatim string is the text; otherwise the localization key is.
   */
  function StringOf(t: Text): (r: Result<Option<string>, InspectionError>)
    ensures Halves(t).Some? && r.Ok? ==> r.value.Some?
    decreases t
  {
    match Halves(t)
    case Some((first, second)) =>
      (match StringOf(first)
       case Err(e) => Err(e)
       case Ok(x) =>
         match StringOf(second)
         case Err(e) => Err(e)
         case Ok(y) => Ok(Some(x.GetOr("") + y.GetOr(""))))
    case None =>
      match Verbatim(t)
      case Some(s) => Ok(Some(s))
      case None => LocalizedString(t)
  }

  // ---------------------------------------------------------------------------
  // Properties of string()

  /**
   * A concatenation is the first half's text followed by the second half's,
   * a half without text contributing nothing; the first failing half's error
   * is the result.
   */
  lemma StringOfConcatenation(t: Text, first: Text, second: Text)
    requires Halves(t) == Some((first, second))
    ensures StringOf(first).Err? ==> StringOf(t) == StringOf(first)
    ensures StringOf(first).Ok? && StringOf(second).Err? ==> StringOf(t) == StringOf(second)
    ensures StringOf(first).Ok? && StringOf(second).Ok? ==>
      StringOf(t) == Ok(Some(StringOf(first).value.GetOr("") + StringOf(second).value.GetOr("")))
  {
  }

  /**
   * The concatenation shape decides alone: two nodes with the same halves have
   * the same text, whatever their verbatim string or localization key.
   */
  lemma ConcatenationFirst(t: Text, u: Text)
    requires Halves(t).Some? && Halves(t) == Halves(u)
    ensures StringOf(t) == StringOf(u)
  {
  }

  /** Without a concatenation, a verbatim string is the text, unformatted. */
  lemma StringOfVerbatim(t: Text, s: string)
    requires Halves(t).None? && Verbatim(t) == Some(s)
    ensures StringOf(t) == Ok(Some(s))
  {
  }

  /**
   * The outcomes of the localization-key shape: missing storage or key throws,
   * a label of the wrong type gives nil, an unformatted key is its own text and
   * a formatted one is filled with its arguments' descriptions.
   */
  lemma StringOfKey(t: Text)
    requires Halves(t).None? && Verbatim(t).None?
    ensures t.storage.None? || t.storage.value.anyTextStorage.None? ==>
      StringOf(t) == Err(NotFound("storage|anyTextStorage"))
    ensures t.storage.Some? && t.storage.value.anyTextStorage.Some? ==>
      var storage := t.storage.value.anyTextStorage.value;
      && (storage.key.None? ==> StringOf(t) == Err(NotFound("key")))
      && (storage.key.Some? ==>
        var key := storage.key.value;
        && (key.key.Absent? ==> StringOf(t) == Err(NotFound("key")))
        && (key.key.Mistyped? ==> StringOf(t) == Ok(None))
        && (key.key.Found? && key.hasFormatting.Absent? ==> StringOf(t) == Err(NotFound("hasFormatting")))
        && (key.key.Found? && key.hasFormatting.Mistyped? ==> StringOf(t) == Ok(None))
        && (key.key.Found? && key.hasFormatting == Found(false) ==> StringOf(t) == Ok(Some(key.key.value)))
        && (key.key.Found? && key.hasFormatting == Found(true) ==>
             && (key.arguments.Absent? ==> StringOf(t) == Err(NotFound("arguments")))
             && (key.arguments.Mistyped? ==> StringOf(t) == Ok(None))
             && (key.arguments.Found? ==>
                  var args := key.arguments.value;
                  && ((exists i :: 0 <= i < |args| && args[i].value.None?) ==> StringOf(t) == Err(NotFound("value")))
                  && ((forall i :: 0 <= i < |args| ==> args[i].value.Some?) ==>
                       StringOf(t) == Ok(Some(Substitute(RewriteFormat(key.key.value), Descriptions(args).value)))))))
  {
  }

  /** The text modifiers play no part in the plain text. */
  lemma StringOfIgnoresModifiers(t: Text, modifiers: Probe<seq<Modifier>>)
    ensures StringOf(t.(modifiers := modifiers)) == StringOf(t)
  {
    assert Halves(t.(modifiers := modifiers)) == Halves(t);
    assert Verbatim(t.(modifiers := modifiers)) == Verbatim(t);
  }

  // ---------------------------------------------------------------------------
  // Reference semantics: text fragments

  /**
   * A text fragment as the text layer builds it: a verbatim string, a
   * localization key (format, formatting flag, argument descriptions) or the
   * concatenation of two fragments.
   */
  datatype Fragment =
    | Plain(text: string)
    | Localized(key: string, hasFormatting: bool, arguments: seq<string>)
    | Concatenation(first: Fragment, second: Fragment)

  /** The text a fragment stands for. */
  function Render(f: Fragment): string
  {
    match f
    case Plain(s) => s
    case Localized(key, hasFormatting, args) =>
      if hasFormatting then Substitute(RewriteFormat(key), args) else key
    case Concatenation(a, b) => Render(a) + Render(b)
  }

  /** The stored form of a fragment, with every field the accessors read. */
  function Encode(f: Fragment): (t: Text)
  {
    match f
    case Plain(s) =>
      Text(Some(Storage(Found(s), None)), Absent)
    case Localized(key, hasFormatting, args) =>
      var record := LocalizedStringKey(Found(key), Found(hasFormatting), Found(seq(|args|, i requires 0 <= i < |args| => FormatArgument(Some(args[i])))));
      Text(Some(Storage(Absent, Some(AnyTextStorage(Absent, Absent, Some(record))))), Absent)
    case Concatenation(a, b) =>
      Text(Some(Storage(Absent, Some(AnyTextStorage(Found(Encode(a)), Found(Encode(b)), None)))), Absent)
  }

  /** Reading back the stored form of any fragment gives the fragment's text. */
  lemma {:induction false} StringOfEncode(f: Fragment)
    ensures StringOf(Encode(f)) == Ok(Some(Render(f)))
  {
    match f
    case Plain(s) =>
    case Localized(key, hasFormatting, args) =>
      var t := Encode(f);
      var stored := t.storage.value.anyTextStorage.value.key.value.arguments.value;
      assert Descriptions(stored).value == args;
    case Concatenation(a, b) =>
      StringOfEncode(a);
      StringOfEncode(b);
  }

  /**
   * A formatted key whose conversion tokens (any of the five) stand between
   * `%`-free segments reads as those segments with the arguments' descriptions
   * in place of the tokens, one for one and in order.
   */
  lemma FormattedKey(segments: seq<string>, tokens: seq<string>, args: seq<string>)
    requires |segments| == |tokens| + 1 && |tokens| == |args|
    requires forall i :: 0 <= i < |segments| ==> '%' !in segments[i]
    requires forall i :: 0 <= i < |tokens| ==> tokens[i] in ArgPatterns
    ensures StringOf(Encode(Localized(Weave(segments, tokens), true, args))) == Ok(Some(Weave(segments, args)))
  {
    StringOfEncode(Localized(Weave(segments, tokens), true, args));
    RewriteWoven(segments, tokens);
    SubstituteInOrder(segments, args);
  }
}
