/**
 * The shape of a SwiftUI `Text` value as the text accessors see it.
 *
 * The accessors never read a `Text` directly: they resolve named paths into it
 * by reflection and cast what they find. Each path they resolve is one field
 * here, so that the outcome of every probe is part of the value.
 */
module TextModel {
  import opened Wrappers

  /**
   * The outcome of resolving one path and casting the value found there:
   * the path is missing (the resolver throws), the value has another type
   * (`as?` gives nil) or the value has the expected type.
   */
  datatype Probe<+T> = Absent | Mistyped | Found(value: T)
  {
    /** `try? resolve(path) as? T`: both failures read as nil. */
    function Optional(): (r: Option<T>)
      ensures r.Some? <==> Found?
      ensures r.Some? ==> r.value == value
    {
      if Found? then Some(value) else None
    }
  }

  /** Failures surfaced by the accessors. */
  datatype InspectionError =
    | NotFound(path: string)          // a path or label the resolver could not follow
    | NotSupported(description: string) // a style modifier with no handler

  /** A `Text` node: its `storage` field and its list of text modifiers. */
  datatype Text = Text(storage: Option<Storage>, modifiers: Probe<seq<Modifier>>)

  /** `storage`: either a verbatim string or a nested `anyTextStorage`. */
  datatype Storage = Storage(verbatim: Probe<string>, anyTextStorage: Option<AnyTextStorage>)

  /**
   * `storage|anyTextStorage`: the two halves of a concatenation (`first`,
   * `second`) or a localization record (`key`).
   */
  datatype AnyTextStorage = AnyTextStorage(first: Probe<Text>, second: Probe<Text>, key: Option<LocalizedStringKey>)

  /** The labelled parts of a `LocalizedStringKey`. */
  datatype LocalizedStringKey = LocalizedStringKey(key: Probe<string>, hasFormatting: Probe<bool>, arguments: Probe<seq<FormatArgument>>)

  /** One format argument: the description of its `value`, when it has one. */
  datatype FormatArgument = FormatArgument(value: Option<string>)

  /** Opaque font payloads, carried into attributes unchanged. */
  datatype FontSize = FontSize(description: string)
  datatype FontWeight = FontWeight(description: string)
  datatype FontDesign = FontDesign(description: string)

  /**
   * The provider found at `font|some|provider|base` of a font modifier: its
   * dynamic type name and its `size`, `weight` and `design` fields.
   */
  datatype FontProvider = FontProvider(typeName: string, size: Option<FontSize>, weight: Option<FontWeight>, design: Option<FontDesign>)

  /**
   * A text modifier: its description and what the paths `font|some|provider|base`
   * and `weight|some` resolve to.
   */
  datatype Modifier = Modifier(description: string, fontProvider: Option<FontProvider>, weight: Probe<FontWeight>)

  /** Both halves of a concatenation, when both resolve to a `Text`. */
  function Halves(t: Text): (r: Option<(Text, Text)>)
    ensures r.Some? <==>
      t.storage.Some? && t.storage.value.anyTextStorage.Some? &&
      t.storage.value.anyTextStorage.value.first.Found? &&
      t.storage.value.anyTextStorage.value.second.Found?
    ensures r.Some? ==>
      r.value == (t.storage.value.anyTextStorage.value.first.value,
                  t.storage.value.anyTextStorage.value.second.value)
    ensures r.Some? ==> r.value.0 < t && r.value.1 < t
  {
    match t.storage
    case None => None
    case Some(s) =>
      match s.anyTextStorage
      case None => None
      case Some(a) =>
        if a.first.Found? && a.second.Found? then Some((a.first.value, a.second.value)) else None
  }

  /** `storage|verbatim` as a `String`, when it resolves and has that type. */
  function Verbatim(t: Text): (r: Option<string>)
    ensures r.Some? <==> t.storage.Some? && t.storage.value.verbatim.Found?
    ensures r.Some? ==> r.value == t.storage.value.verbatim.value
  {
    if t.storage.Some? then t.storage.value.verbatim.Optional() else None
  }

  /** `modifiers` as a list; a missing or mistyped list reads as empty. */
  function Modifiers(t: Text): (r: seq<Modifier>)
    ensures t.modifiers.Found? ==> r == t.modifiers.value
    ensures !t.modifiers.Found? ==> r == []
  {
    t.modifiers.Optional().GetOr([])
  }
}
