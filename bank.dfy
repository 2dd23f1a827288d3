/**
 * The question bank that the extractor writes and the quiz server loads:
 * one record per question, as in the persisted JSON array.
 */
module Bank {

  /** The `type` tag of a record: `"single"` or `"multiple"`. */
  datatype Kind = Single | Multiple

  /**
   * One record of the bank. `answer` holds the 0-based option indices the
   * answer key gave; nothing checks them against `options` (an answer of
   * `0` in the key gives `-1`, and an empty key entry gives `[]`).
   */
  datatype QuestionRecord = QuestionRecord(
    id: nat,
    question: string,
    options: seq<string>,
    answer: seq<int>,
    kind: Kind)
}
