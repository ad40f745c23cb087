/** The records the term-annotation engine exchanges: the severity
    enumeration (SeverityBadge.tsx), the annotation record
    (AnnotatedText.tsx) and the summary result record (ResultCard.tsx). */
module Types {
  import opened Wrappers

  /** The four independent categories a flagged term can carry. */
  datatype Severity = Outdated | Biased | Offensive | Incorrect

  /** One `{ label, url }` reference link (`label` is a Dafny keyword, hence `caption`). */
  datatype Reference = Reference(caption: string, url: string)

  /** A flagged span `[start, end)` of the analysed text. The offsets are
      plain numbers in the source, so nothing here forces them in range. */
  datatype Annotation = Annotation(
    start: int,
    end: int,
    severity: Severity,
    caption: string,
    suggestion: Option<string>,
    explanation: Option<string>,
    references: Option<seq<Reference>>)

  /** One entry of the deduplicated summary list. */
  datatype Result = Result(
    phrase: string,
    severity: Severity,
    explanation: string,
    suggestion: Option<string>,
    references: Option<seq<Reference>>)
}
