/** The ways a conversion run stops with an exception instead of producing its output. */
module Errors {

  datatype Error =
    /** The input file named by `path` does not exist (`FileNotFoundError`). */
    | MissingInputFile(path: string)
    /**
     * A trans-unit of a plural group has no `<context-group>`, or has a
     * plural-form `<context>` without text while its target has text
     * (`AttributeError` on `None`).
     */
    | MalformedPluralUnit
    /** `sorted()` compared a missing resname (`None`) with a string (`TypeError`). */
    | UnorderableKeys
    /** The XLIFF root has no `<file>` child. */
    | NoFileElement
    /** The `<file>` element has no `target-language` attribute. */
    | NoTargetLanguage
    /** `max()` over the key lengths of an empty glossary (`ValueError`). */
    | EmptyGlossary
}
