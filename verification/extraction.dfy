/** Locating a field of a discipline's detail page: `DisciplineMetadataConfig`
    (a label word, then the nearest following tag of a given type) and
    `_get_discipline_name` (a bold "Disciplina..." marker, then the next span). */
module Extraction {
  import opened Wrappers
  import opened PyStr
  import opened Document

  /** Why a field could not be located. In Python each of these is an
      `AttributeError` raised on a `None` search result. */
  datatype ExtractError =
    | LabelNotFound(word: string)
    | TargetNotFound(word: string, tagType: string)
    | NameMarkerNotFound
    | NameSpanNotFound

  /** `DisciplineMetadataConfig(b_tag_word, next_tag_type)`. */
  datatype MetadataRule = MetadataRule(labelWord: string, nextTagType: string)

  const Bibliography := MetadataRule("Bibliografia", "pre")
  const Description := MetadataRule("Objetivos", "i")
  const Program := MetadataRule("Programa", "i")

  /** The separator `get_content` passes to `get_text`. */
  const ContentSeparator := "\n"

  /** The prefix that marks the bold tag introducing the discipline's name. */
  const NameMarker := "Disciplina"

  /** Python's truthiness of `tag.string`: present and not the empty string. */
  predicate HasString(n: Node)
  {
    n.ownString.Some? && n.ownString.value != ""
  }

  /** The label predicate of `get_content`: a tag of any name whose own string,
      stripped, is the label word. */
  predicate IsLabel(word: string, n: Node)
  {
    HasString(n) && Strip(n.ownString.value) == word
  }

  /** The target predicate of `get_content`: the tag type, and the class when
      the class filter is not empty. */
  predicate IsTarget(tagType: string, classFilter: string, n: Node)
  {
    n.name == tagType && (classFilter == "" || classFilter in n.classes)
  }

  /** The name-marker predicate of `_get_discipline_name`: a `b` tag whose
      own string, unstripped, starts with "Disciplina". */
  predicate IsNameMarker(n: Node)
  {
    n.name == "b" && HasString(n) && StartsWith(n.ownString.value, NameMarker)
  }

  predicate IsSpan(n: Node)
  {
    n.name == "span"
  }

  function LabelOf(word: string): Node -> bool
  {
    n => IsLabel(word, n)
  }

  function TargetOf(tagType: string, classFilter: string): Node -> bool
  {
    n => IsTarget(tagType, classFilter, n)
  }

  /** `rule.get_content(page, class_filter)`. It binds to the first label tag
      of the page and returns the stripped, newline-joined text of the first
      qualifying tag after it; it fails, rather than returning empty text, when
      there is no label or no qualifying tag after the label. */
  function GetContent(rule: MetadataRule, page: Doc, classFilter: string): (r: Result<string, ExtractError>)
    ensures r.Err? ==> r.error == LabelNotFound(rule.labelWord)
                       || r.error == TargetNotFound(rule.labelWord, rule.nextTagType)
    ensures r == Err(LabelNotFound(rule.labelWord))
            <==> NoneFrom(page, LabelOf(rule.labelWord), 0)
    ensures r == Err(TargetNotFound(rule.labelWord, rule.nextTagType))
            <==> exists i :: FirstAt(page, LabelOf(rule.labelWord), 0, i)
                          && NoneFrom(page, TargetOf(rule.nextTagType, classFilter), i + 1)
    ensures forall i, j ::
              FirstAt(page, LabelOf(rule.labelWord), 0, i)
              && FirstAt(page, TargetOf(rule.nextTagType, classFilter), i + 1, j)
              ==> r == Ok(GetText(page[j].strings, ContentSeparator))
    ensures r.Ok? ==> Trimmed(r.value)
  {
    var isLabel, isTarget := LabelOf(rule.labelWord), TargetOf(rule.nextTagType, classFilter);
    match Find(page, isLabel)
    case None => Err(LabelNotFound(rule.labelWord))
    case Some(i) =>
      FirstAtUnique(page, isLabel, 0, i);
      match FindNext(page, isTarget, i)
      case None => Err(TargetNotFound(rule.labelWord, rule.nextTagType))
      case Some(j) =>
        FirstAtUnique(page, isTarget, i + 1, j);
        Ok(GetText(page[j].strings, ContentSeparator))
  }

  /** `_get_discipline_name(page)`: the text, joined without separator, of the
      first span after the first name marker; a failure when either is missing. */
  function DisciplineName(page: Doc): (r: Result<string, ExtractError>)
    ensures r == Err(NameMarkerNotFound) <==> NoneFrom(page, IsNameMarker, 0)
    ensures r == Err(NameSpanNotFound)
            <==> exists i :: FirstAt(page, IsNameMarker, 0, i) && NoneFrom(page, IsSpan, i + 1)
    ensures r.Err? ==> r.error == NameMarkerNotFound || r.error == NameSpanNotFound
    ensures forall i, j :: FirstAt(page, IsNameMarker, 0, i) && FirstAt(page, IsSpan, i + 1, j)
                           ==> r == Ok(GetText(page[j].strings, ""))
    ensures r.Ok? ==> Trimmed(r.value)
  {
    match Find(page, IsNameMarker)
    case None => Err(NameMarkerNotFound)
    case Some(i) =>
      FirstAtUnique(page, IsNameMarker, 0, i);
      match FindNext(page, IsSpan, i)
      case None => Err(NameSpanNotFound)
      case Some(j) =>
        FirstAtUnique(page, IsSpan, i + 1, j);
        Ok(GetText(page[j].strings, ""))
  }
}
