/** Shared value types of the speed reader: an optional value (the source's
    `number | null`) and the reading unit (`Word`, src/lib/types.ts). */
module Types {

  datatype Option<T> = None | Some(value: T)

  /** One reading unit: the raw token, the index of the character to
      emphasise, the extra delay in milliseconds shown after it, and the
      trailing punctuation cluster of the token. */
  datatype Word = Word(text: string, orp: nat, pauseAfter: nat, punctuation: string)
}
