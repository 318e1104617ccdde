# Speed reader: tokenizer, timing rules and playback state

This project models the core of a browser speed-reading tool in Dafny.

The tool turns free text into a sequence of *reading units*. Each unit is one
whitespace-delimited token, annotated with two values:

- an **Optimal Recognition Point** (ORP): the index of the character to
  highlight;
- a **pause**: how many milliseconds to hold the word after showing it.

A playback state object holds the reading units and a position in them. It
moves the position with play/pause, reset, back, forward and seek.

## Modules

- `types.dfy` (`Types`): the `Word` record (a reading unit) and `Option`.
- `text_parser.dfy` (`TextParser`): the pure pipeline of
  `src/lib/utils/text-parser.ts`.
  - `ExtractPunctuation` strips a maximal run of opening punctuation, then a
    maximal run of closing punctuation from what remains.
  - `CalculateORP` finds the ASCII-alphanumeric span and adds a
    length-tiered offset.
  - `PauseRules` sums the seven pause rules.
  - `Trim`, `Split` and `DropEmpty` are the whitespace tokenizer.
  - `ParseText` maps tokens to reading units.
  - The two anchored regexes are modelled as maximal runs of a character
    class (`PrefixRun`, `SuffixRun`).
  - Whitespace is the ECMAScript WhiteSpace and LineTerminator set, which
    `\s` and `trim()` share.
- `reader_state.dfy` (`ReaderStore`): the `ReaderState` class of
  `src/lib/stores/settings.svelte.ts`.
  - It keeps only the playback fields, updated in place by its methods.
  - `Date.now()` is the parameter `now` of `TogglePlay`.

## The pause is measured on the raw token

`parseText` hands the pause calculator the raw token, punctuation included,
not the clean word (text-parser.ts:141-145). The length bonuses therefore
count punctuation characters. `PauseCountsRawLength` shows the consequence:
the 8-character bonus fires for `however,`, whose clean word `however` has
only 7 characters.

## Observations the proofs make explicit

- The lower clamp `Math.max(ideal, 2)` of the ORP rule never takes effect. A
  span longer than 8 already gives `floor(L/3) >= 3`, so every tier equals
  `min(floor(L/3), 5)` (`OrpOffset`).
- The early return of `calculatePauseDuration` never changes its result: it
  fires only where the seven rules sum to 0 anyway (`CalculatePauseDuration`).
  The converse does not hold. A token whose only punctuation is an apostrophe
  does not return early, yet its pause is 0 as well (`PauseZeroIff`,
  `PauseZeroWithPunctuation`).
- The `/` in the sentence-end class `[.!/?]` can never match. The trailing
  fragment holds only closing punctuation, and `/` is not closing punctuation
  (`SlashNeverEndsSentence`).
- `loadNewText` stops playback but leaves `playbackStartTime` unchanged. It
  keeps the clock-matches-playing invariant only when no start time was
  recorded (`ReaderStore.ReaderState.LoadNewText`).
- `seek` does no range check, so after a seek the position is in range
  exactly when the target was (`ReaderStore.ReaderState.Seek`).
  - From a position past the end, `togglePlay` restarts at the first word.
  - From a negative position it plays from there (`ReaderStore.SeekOutOfRange`).

## Model

| member | source | states |
|---|---|---|
| TextParser.IsWhitespace | src/lib/utils/text-parser.ts:130-131 | a definition, not a contract: the ECMAScript WhiteSpace and LineTerminator code points, the set both `\s` and `trim()` use |
| TextParser.PrefixRun | src/lib/utils/text-parser.ts:97 | the length of the anchored greedy match of a class run at the start, zero when the regex does not match; it never exceeds the word |
| TextParser.SuffixRun | src/lib/utils/text-parser.ts:98 | the length of the `[...]+$` match at the end, zero when the regex does not match; it never exceeds the word |
| TextParser.PrefixRunIsMaximal | src/lib/utils/text-parser.ts:97 | a greedy anchored `[...]+` match is a run of the class that the next character does not extend |
| TextParser.SuffixRunIsMaximal | src/lib/utils/text-parser.ts:98 | a `[...]+$` match is a run of the class ending at the end that the character before it does not extend |
| TextParser.PrefixRunUnique | src/lib/utils/text-parser.ts:97 | the leading match is determined by being a run of the class that cannot be extended |
| TextParser.SuffixRunUnique | src/lib/utils/text-parser.ts:98 | the trailing match is determined by being a run of the class that cannot be extended |
| TextParser.ExtractPunctuation | src/lib/utils/text-parser.ts:92-117 | leading + clean word + trailing spell the word; leading is all opening punctuation and maximal; trailing is all closing punctuation and maximal in what the leading cut leaves; a word of opening punctuation only leaves the other two empty |
| TextParser.ExtractionUnique | src/lib/utils/text-parser.ts:104-114 | any split with those properties is the one ExtractPunctuation returns |
| TextParser.ExtractTrailingComma | src/lib/utils/text-parser.ts:110-114 | `Hello,` splits into "", `Hello`, `,` |
| TextParser.ExtractTrailingBang | src/lib/utils/text-parser.ts:110-114 | `world!` splits into "", `world`, `!` |
| TextParser.ExtractQuotedInBrackets | src/lib/utils/text-parser.ts:104-114 | `("yes"),` loses `("` at the front and `"),` at the back |
| TextParser.ExtractContraction | src/lib/utils/text-parser.ts:119-123 | the apostrophe inside `don't` stays in the word |
| TextParser.ExtractPunctuationOnly | src/lib/utils/text-parser.ts:104-114 | in `(...)` the leading run stops at the first dot, and the trailing run takes the rest, leaving an empty clean word |
| TextParser.FirstAlnum | src/lib/utils/text-parser.ts:14 | no result exactly when there is no ASCII alphanumeric; otherwise the index of the first one |
| TextParser.LastAlnum | src/lib/utils/text-parser.ts:15 | no result exactly when there is no ASCII alphanumeric; otherwise the index of the last one |
| TextParser.OrpOffset | src/lib/utils/text-parser.ts:25-35 | the tier chain equals min(floor(L/3), 5) for every span length L, and the offset falls in the first half of a non-empty span |
| TextParser.OrpOffsetMonotone | src/lib/utils/text-parser.ts:25-35 | a longer span never gives a smaller offset |
| TextParser.CalculateORP | src/lib/utils/text-parser.ts:12-38 | a token without ASCII alphanumerics gets its middle index; otherwise the ORP lies in the token with an alphanumeric at or before it and one at or after it; a non-empty token always gets an index inside it |
| TextParser.OrpInAlnumSpan | src/lib/utils/text-parser.ts:21-37 | with alphanumeric span [first, last] the ORP is first + min(floor((last-first+1)/3), 5) and lies inside the span |
| TextParser.OrpExamples | src/lib/utils/text-parser.ts:7-10 | `a` and `it` give 0, `cat` gives 1, an em dash gives 0, and `café` gives 1 because é is outside [a-zA-Z0-9] |
| TextParser.PauseRules | src/lib/utils/text-parser.ts:53-86 | the pause is a multiple of 50 and at most 1050, and it is 0 for a word under 8 characters without punctuation |
| TextParser.CalculatePauseDuration | src/lib/utils/text-parser.ts:43-87 | the early-return, running-total procedure always equals the plain sum of the seven rules |
| TextParser.PauseZeroIff | src/lib/utils/text-parser.ts:51-84 | the pause is 0 exactly when no rule fires |
| TextParser.PauseZeroWithPunctuation | src/lib/utils/text-parser.ts:48-84 | `'tis` with leading `'` has non-empty punctuation, so the early return of line 51 does not fire, and still its pause is 0: no rule's class holds an apostrophe |
| TextParser.SlashNeverEndsSentence | src/lib/utils/text-parser.ts:54 | on an extracted trailing fragment the class `[.!/?]` matches exactly when `[.!?]` does |
| TextParser.PauseExamples | src/lib/utils/text-parser.ts:51-81 | `word` gives 0, `hello` with `.` gives 300, `elephant` with `,` gives 200 |
| TextParser.PauseMaximumReached | src/lib/utils/text-parser.ts:53-86 | the bound 1050 is reached: a long word with every kind of punctuation fires all seven rules |
| TextParser.Trim | src/lib/utils/text-parser.ts:130 | the trimmed text is empty exactly when the text is all whitespace; otherwise it starts and ends with non-whitespace; it sits in the text between two whitespace margins |
| TextParser.TrimOfUnpadded | src/lib/utils/text-parser.ts:130 | trimming a text without whitespace margins changes nothing |
| TextParser.Split | src/lib/utils/text-parser.ts:131 | splitting gives at least one piece, and no piece holds whitespace |
| TextParser.SplitIsWhitespaceSplit | src/lib/utils/text-parser.ts:131 | the pieces interleaved with the whitespace runs spell the input; only the first and the last piece can be empty, and they are not when the input starts or ends with non-whitespace |
| TextParser.WhitespaceSplitUnique | src/lib/utils/text-parser.ts:131 | any split into whitespace-free pieces and non-empty whitespace gaps is the one Split computes |
| TextParser.DropEmpty | src/lib/utils/text-parser.ts:132 | every piece kept is non-empty and comes from the input; nothing is dropped when no piece is empty, everything when all are |
| TextParser.DropEmptySingle | src/lib/utils/text-parser.ts:132 | a single piece is kept exactly when it is non-empty |
| TextParser.DropEmptyConcat | src/lib/utils/text-parser.ts:132 | filtering a concatenation is the concatenation of the filtered parts, so each non-empty piece is kept once and in order |
| TextParser.Tokens | src/lib/utils/text-parser.ts:129-132 | every token of trim, split and filter is non-empty and whitespace-free |
| TextParser.BlankHasNoTokens | src/lib/utils/text-parser.ts:129-132 | a text that trims to nothing has no tokens |
| TextParser.TokensAreWhitespaceRuns | src/lib/utils/text-parser.ts:129-132 | the tokens are the maximal whitespace-free runs of the trimmed text, in order; the filter removes nothing from a non-blank text |
| TextParser.TokensOfJoin | src/lib/utils/text-parser.ts:129-132 | tokenizing non-empty whitespace-free words joined by single spaces gives back exactly those words |
| TextParser.SingleToken | src/lib/utils/text-parser.ts:129-132 | a text without whitespace is a single token |
| TextParser.TokensAreWords | src/lib/utils/text-parser.ts:126-132 | every token is non-empty and whitespace-free, and there are none exactly when the text is all whitespace |
| TextParser.MakeWord | src/lib/utils/text-parser.ts:134-147 | the unit of a token carries the token as its text, the token's ORP (inside it), the extraction's trailing fragment as punctuation (a suffix of the token), and the pause of the raw token with the extracted fragments, at most 1050 |
| TextParser.ParseText | src/lib/utils/text-parser.ts:125-149 | units match tokens one to one and in order; no units exactly for blank text; every unit's text is a non-empty whitespace-free token with ORP inside it and a pause of at most 1050 |
| TextParser.ParseTextOfBlank | src/lib/utils/text-parser.ts:126 | empty and whitespace-only texts give no units |
| TextParser.TokensHelloWorld | src/lib/utils/text-parser.ts:129-132 | `Hello, world!` has the tokens `Hello,` and `world!` |
| TextParser.ParseTextHelloWorld | src/lib/utils/text-parser.ts:125-149 | `Hello, world!` gives two units, with punctuation `,` and `!` |
| TextParser.PauseOfHowever | src/lib/utils/text-parser.ts:73-81 | `however,` with trailing `,` pauses 150 + 50 ms |
| TextParser.ExtractHowever | src/lib/utils/text-parser.ts:110-114 | the clean word of `however,` is the 7-character `however` |
| TextParser.PauseCountsRawLength | src/lib/utils/text-parser.ts:141-145 | a `however,` token gets a 200 ms pause, because the raw 8-character token is measured |
| ReaderStore.ReaderState.constructor | src/lib/stores/settings.svelte.ts:30-35 | no text, no words, position 0, paused, no start time, uploader hidden |
| ReaderStore.ReaderState.LoadNewText | src/lib/stores/settings.svelte.ts:156-163 | the text and its parsed units are stored, the position is 0, playback is paused and the uploader hidden; the start time is untouched; the position is in range |
| ReaderStore.ReaderState.TogglePlay | src/lib/stores/settings.svelte.ts:165-181 | with no words, only the uploader is asked for; otherwise playing flips, the position resets to 0 when starting from the last word or beyond, and the start time is `now` exactly when starting; the range and clock invariants are kept |
| ReaderStore.ReaderState.Reset | src/lib/stores/settings.svelte.ts:183-187 | position 0, paused, start time cleared, everything else unchanged |
| ReaderStore.ReaderState.Back | src/lib/stores/settings.svelte.ts:189-195 | above 0: one word back, paused, start time cleared; otherwise nothing changes; the invariants are kept |
| ReaderStore.ReaderState.Forward | src/lib/stores/settings.svelte.ts:197-203 | before the last word: one word forward, paused, start time cleared; otherwise nothing changes; never moves past the last word; the invariants are kept |
| ReaderStore.ReaderState.Seek | src/lib/stores/settings.svelte.ts:205-209 | the position is the target, paused, start time cleared; in range exactly when the target is |
| ReaderStore.SeekOutOfRange | src/lib/stores/settings.svelte.ts:165-209 | seek accepts -1 unchecked, and starting playback from there leaves the position at -1, playing and outside the word range; on the way, a seek past the end followed by play restarts at the first word |

## Left out

- The reader settings (wpm, font size, font family, dark mode, ease-up) and their defaults are left out. They play no part in position or playback logic.
- Persistence is left out: IndexedDB for the text and localStorage for settings and position (settings.svelte.ts:69-153). It is browser I/O.
- The reactive auto-save and the one-second debounce of the position (settings.svelte.ts:49-65) are left out. They are timers and framework side effects.
- The `await this.saveText(newText)` at the end of `loadNewText` is left out. It is asynchronous I/O; the model keeps only the synchronous state updates.
- The constructor's browser start-up (opening the database and loading the stored state) is left out, for the same reason.
- `Date.now()` is not modelled as a clock. It becomes the `now` parameter of `TogglePlay`.
- The Wikipedia fetch (src/lib/utils/wikipedia.ts) is left out. It is network I/O.
- Strings are sequences of Unicode code points. JavaScript strings are UTF-16 code units, so a character outside the Basic Multilingual Plane counts as two units in `length`, and indices differ for such text.
- ReaderStore.ReaderState.Seek: the position is a Dafny `int`, whereas the source accepts any JavaScript number (fractions, NaN). Only integer targets are modelled.
- TextParser.ParseText: the model uses `PauseRules`, the function `CalculatePauseDuration` is proved equal to, because a function cannot call a method. The method itself keeps the source's early return and running total.
