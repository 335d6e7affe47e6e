# Expo Go compatibility rewrite, modelled in Dafny

When Ignite generates a new app for the Expo Go workflow, it pins a handful of
packages to versions the Expo Go app can load and removes `expo-dev-client`.
It does this by rewriting the raw text of `package.json` with two kinds of
global regular-expression replacement
(`src/tools/expoGoCompatibility.ts`):

- for each dependency name, in `Object.keys` order, every occurrence of
  `"<name>"\s*:\s*"[^"]+"` becomes exactly `"<name>": "<version>"`;
- afterwards every `"expo-dev-client"\s*:\s*"[^"]+",?` is deleted.

The project models this as follows.

- `EntryPattern` (entry_pattern.dfy): the two fixed patterns as one matcher,
  `MatchAt`, over `string`. It returns the parts of the entry it found
  (whitespace before and after the colon, the value, whether a trailing
  comma was taken) and the text after it. `\s` is JavaScript's: the
  WhiteSpace and LineTerminator characters.
- `GlobalReplace` (global_replace.dfy): `String.prototype.replace` with the
  `g` flag and a literal replacement, `ReplaceAll`. It scans left to right,
  replaces each match, resumes after it, and copies other characters
  through. `Scan` lists the pieces of that scan.
- `EntryAutomaton` (entry_automaton.dfy): the dependency pattern as the
  automaton a regex engine runs, proved equal to `MatchAt`. It is the proof
  device for idempotence.
- `ExpoGoCompatibility` (expo_go_compatibility.dfy): the version table, one
  update step per dependency, the removal pass, and the method
  `FindAndUpdateDependencyVersions` with its loop over the dependencies.

The `Record<string, string>` argument is modelled as the sequence of its
entries in `Object.keys` order. The method requires two things the source
relies on but never checks. First, each name has no regular-expression
metacharacter and no `"`, because it is spliced into the pattern unescaped.
Second, each version has no `$`, because it is spliced into the replacement
string. Under these conditions the source's regular expressions match
exactly what `MatchAt` matches.

The removal pass deletes only a comma that follows the `expo-dev-client`
entry. When that entry is the last one of its object, the comma before it
stays. The model keeps this behaviour as written.

The removal pass deletes only the entries present in the text when it runs.
Deleting one entry can join the text on either side of it into a new
`expo-dev-client` entry, for instance when an entry sits inside a cut
`"expo-dev-` … `client": "2"`. That new entry stays in the output, so the
output of `findAndUpdateDependencyVersions` is not guaranteed to be free of
`expo-dev-client`, and the pass is not idempotent. The model keeps this
behaviour as written; `RemoveCanJoinNewEntry` exhibits it.

## Model

| member | source | states |
|---|---|---|
| EntryPattern.MatchTail | src/tools/expoGoCompatibility.ts:26 | The part of the pattern after the quoted name, `\s*:\s*"[^"]+"` and the optional `,`. A match is whitespace, a colon, whitespace and a quoted non-empty value without `"`, and the text is exactly those parts followed by the rest. With the `,?` pattern, a comma after the value is always taken. |
| EntryPattern.MatchAt | src/tools/expoGoCompatibility.ts:26 | A match at the start of the text is a quoted name, whitespace, a colon, whitespace and a quoted non-empty value without `"`. The text is exactly that entry followed by the rest. With the `,?` pattern, a comma after the value is always taken. |
| EntryPattern.MatchAtEntry | src/tools/expoGoCompatibility.ts:26 | Every well-formed entry at the start of a text is matched, with any whitespace around the colon and any non-empty quote-free value. The match returned is exactly that entry and the rest after it. |
| EntryPattern.EmptyValueNotMatched | src/tools/expoGoCompatibility.ts:26 | An entry whose value is `""` is not matched, because `[^"]+` needs at least one character. |
| EntryAutomaton.MatchIffAccepts | src/tools/expoGoCompatibility.ts:26 | The matcher finds the dependency pattern at the start of a text exactly when the pattern's automaton accepts a prefix of that text. |
| EntryAutomaton.RunEntry | src/tools/expoGoCompatibility.ts:26 | Read from any phase, a matched entry leaves the automaton in a phase fixed by the quoted name alone. Its whitespace and its value play no part. |
| EntryAutomaton.ReplaceAllPreservesRun | src/tools/expoGoCompatibility.ts:27 | Replacing every match with another entry of the same name does not change the automaton's run over the text from any phase. So the rewrite does not change where the pattern matches. |
| GlobalReplace.ReplaceAll | src/tools/expoGoCompatibility.ts:27 | `String.prototype.replace` with a `g` regular expression and a literal replacement. Its own contract: a replacement no longer than any entry never lengthens the text. What it does position by position is stated by `ReplaceAllIsRender`, `ReplaceEntry`, `CopyPrefix` and `NoMatchIdentity`. |
| GlobalReplace.Scan | src/tools/expoGoCompatibility.ts:27 | The scan's pieces spell out the input in order and follow the matches. At each point of the scan, the next piece is an entry exactly where the pattern matches the text from there on, and then it is that very match. It is a copied character exactly where the pattern does not match. |
| GlobalReplace.ReplaceAllIsRender | src/tools/expoGoCompatibility.ts:27 | The global replace equals its scan with each matched entry turned into the replacement and every other character copied unchanged, in order. |
| GlobalReplace.ScanUnique | src/tools/expoGoCompatibility.ts:27 | Any list of pieces that spells out the text and follows the matches is the scan itself. So the piece description in `Scan` and `ReplaceAllIsRender` fixes the output of the replace completely. |
| GlobalReplace.DeleteShrinks | src/tools/expoGoCompatibility.ts:31 | With an empty replacement, the pass makes the text strictly shorter as soon as the pattern matches at any position, even one the scan skips over. |
| GlobalReplace.ReplaceEntry | src/tools/expoGoCompatibility.ts:27 | An entry at the head of the text becomes exactly the replacement, and the scan resumes right after the entry. |
| GlobalReplace.CopyPrefix | src/tools/expoGoCompatibility.ts:27 | A prefix in which no match starts is copied through unchanged, ahead of the replace of the remaining text. |
| GlobalReplace.NoMatchIdentity | src/tools/expoGoCompatibility.ts:31 | A text in which the pattern matches at no position comes out unchanged. |
| ExpoGoCompatibility.FindAndUpdateDependencyVersions | src/tools/expoGoCompatibility.ts:18-34 | The result is the removal pass applied to the input after all dependency updates, applied in key order. With no dependencies, the result is the removal pass applied to the input. |
| ExpoGoCompatibility.UpdateDependency | src/tools/expoGoCompatibility.ts:25-27 | One step of the `forEach`: the global replace of `"<name>"\s*:\s*"[^"]+"` by `"<name>": "<version>"`. It has no contract of its own; `UpdateRewritesEntry`, `UpdateSkipsEmptyValue` and `UpdateIdempotent` state what it does. |
| ExpoGoCompatibility.ApplyUpdates | src/tools/expoGoCompatibility.ts:24-28 | The `forEach` over the keys as a fold: each update runs on the previous one's output. It has no contract of its own; `ApplyUpdatesAppend` and `FindAndUpdateDependencyVersions` state its role. |
| ExpoGoCompatibility.ApplyUpdatesAppend | src/tools/expoGoCompatibility.ts:22-28 | Updates run in order, each on the previous one's output. Applying the updates of `a + b` equals applying those of `a` and then those of `b`. |
| ExpoGoCompatibility.UpdateRewritesEntry | src/tools/expoGoCompatibility.ts:24-28 | An entry `"name" : "old"` with any whitespace and a non-empty quote-free old value comes out as exactly `"name": "<version>"`. The update then goes on with the text after the entry. |
| ExpoGoCompatibility.UpdateSkipsEmptyValue | src/tools/expoGoCompatibility.ts:26-27 | At an entry `"name" : ""` no rewrite takes place. Its first character is copied and the scan moves on by one character. |
| ExpoGoCompatibility.UpdateIdempotent | src/tools/expoGoCompatibility.ts:26-27 | For a name without `"` and a non-empty version without `"`, updating a dependency twice gives the same text as updating it once. |
| ExpoGoCompatibility.RemoveDevClient | src/tools/expoGoCompatibility.ts:30-31 | The final `replace` that deletes `"expo-dev-client"\s*:\s*"[^"]+",?`. It only deletes, so the output is never longer than the input. |
| ExpoGoCompatibility.RemoveDeletesEntry | src/tools/expoGoCompatibility.ts:30-31 | An `expo-dev-client` entry is deleted, together with the comma right after it if there is one. The pass then goes on with the text after it. |
| ExpoGoCompatibility.RemoveWithoutEntry | src/tools/expoGoCompatibility.ts:30-31 | With no `expo-dev-client` entry at any position, the removal pass is the identity. |
| ExpoGoCompatibility.RemoveChangesIffEntry | src/tools/expoGoCompatibility.ts:30-31 | The removal pass changes the text exactly when an `expo-dev-client` entry starts at some position. Both directions are stated. |
| ExpoGoCompatibility.RemoveShortText | src/tools/expoGoCompatibility.ts:31 | A text shorter than the 17 characters of `"expo-dev-client"` comes out unchanged. |
| ExpoGoCompatibility.RemoveEntryBetween | src/tools/expoGoCompatibility.ts:31 | An `expo-dev-client` entry between a text in which no match starts and a text the pass leaves alone is deleted. The text before it is kept whole, whatever it ends with. |
| ExpoGoCompatibility.RemoveWholeEntry | src/tools/expoGoCompatibility.ts:31 | A text that is exactly one `expo-dev-client` entry is matched and deleted whole. |
| ExpoGoCompatibility.RemoveCanJoinNewEntry | src/tools/expoGoCompatibility.ts:30-31 | The pass deletes only the entries present when it runs. Deleting an entry placed inside a cut `"expo-dev-` + `client": "<v>"` leaves the joined entry `"expo-dev-client": "<v>"`. That output still matches the pattern, and a second pass deletes it, so the pass is not idempotent. |
| ExpoGoCompatibility.LastEntryKeepsComma | src/tools/expoGoCompatibility.ts:31 | When `expo-dev-client` is the last entry of its object, as in `"a": "1", "expo-dev-client": "<v>"\n}`, the output is `"a": "1", \n}`. The comma before the entry stays. |
| ExpoGoCompatibility.ExpectedVersionsTable | src/tools/expoGoCompatibility.ts:5-12 | The table has exactly six entries with distinct names. For example, `react-native` ↦ `0.72.6` and `expo-font` ↦ `~11.4.0`. |
| ExpoGoCompatibility.ExpectedVersionsSafe | src/tools/expoGoCompatibility.ts:5-12 | Each name of the table is safe to splice into the regular expression and each version into the replacement. So the table meets the precondition of `FindAndUpdateDependencyVersions`. |

## Left out

- General regular-expression semantics: only the two fixed patterns are modelled. A dependency name with a metacharacter, which the source would interpret as regex syntax, is excluded by `SafeName`.
- Replacement patterns (`$&`, `$1`, `$$`, …) in the replacement string: a version containing `$` is excluded by `SafeVersion`.
- JavaScript strings are sequences of UTF-16 code units, but the model uses Unicode code points (`char`). Every `\s` character and `"` lies in the Basic Multilingual Plane, so matching is the same.
- The order of `Object.keys` is taken as given by the caller's sequence. JavaScript lists integer-like keys first; the model does not reorder them.
- ExpoGoCompatibility.UpdateSkipsEmptyValue: states only that no match starts at the empty-valued entry's opening quote. It does not state that no later match overlaps the entry's closing quote, which depends on the text after it.
- The scaffold generator (file creation, barrel and root-store patching, created/skipped report) is outside this model, which covers only the `package.json` rewrite in `src/tools/expoGoCompatibility.ts`.
- The API wrapper services (`app/services/*.ts`), configuration loading (`app/config/*.ts`), type declarations and the navigator UI are left out. They are network and SDK calls, environment reads and declarative UI, with no logic to verify.
