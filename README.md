# Student email assignment and record filters, in Dafny

This project models the four operations of `functions.py`:

- `generate_email` turns a student's display name into an address under `@gmail.com` that the shared registry does not yet hold. It lower-cases the name. It deletes every character that is neither a word character nor whitespace. It splits the rest on runs of whitespace. It builds a local-part base from the tokens and strips it. Then it tries `base@gmail.com`, `base1@gmail.com`, `base2@gmail.com` and so on until a candidate is free.
- `generate_emails_for_students` runs `generate_email` over the names in row order, with one registry for the whole batch.
- `generate_gender_lists` returns the names of the rows whose gender is exactly `'M'`, and then those whose gender is exactly `'F'`.
- `find_special_characters` returns the names that hold a character outside `a-zA-Z`, whitespace and comma.

The project has seven modules:

- `CharClasses` (`chars.dfy`): the character classes `\s` and `\w`, and one-character lower-casing.
- `Decimal` (`decimal.dfy`): the decimal numeral the f-string at functions.py:28 writes for the counter.
- `TokenSplit` (`split.dfy`): `re.split(r'\s+', ...)`, the space-joining of tokens, and the shape of the pieces a split returns.
- `NameNormalizer` (`normalize.dfy`): lower-casing, the substitution `re.sub(r'[^\w\s]', '', ...)`, and `str.strip()`.
- `EmailAssigner` (`email.dfy`), which models the two email operations:
  - the base and the candidates;
  - the smallest free counter;
  - the registry as a class `EmailRegistry` whose `GenerateEmail` method updates its `emails` set in place;
  - the batch as a method that loops over the names with one fresh registry.
- `RecordClassifier` (`classify.dfy`): the two filters, as functions over a sequence of rows, each reduced to its name and gender cells.
- `EmailExamples` (`worked_cases.dfy`): worked names ("John Smith", "Madonna", "Jo-Ann Smith", repeated "John Smith" rows, and others), each derived from the general lemmas.

The functions that stand for the source's own code are:

- `NameNormalizer.Normalize` for the expression at functions.py:16.
- `EmailAssigner.BaseOfTokens` for the base at functions.py:17-22, and `EmailAssigner.EmailBase` for lines 16-22 together.
- `EmailAssigner.Candidate` for the candidate addresses of functions.py:25 and 28.
- `EmailAssigner.EmailFor` for the result of `generate_email`, and `EmailAssigner.BatchEmails` for that of `generate_emails_for_students`.
- `RecordClassifier.Select` for `df[mask]['Student Name'].tolist()`.
- `RecordClassifier.GenderLists` for `generate_gender_lists`.
- `RecordClassifier.SpecialCharacterNames` for `find_special_characters`.

Each method is proved against a specification function:

- `GenerateEmail` is proved against `EmailFor`.
- `GenerateEmailsForStudents` is proved against `BatchEmails`.

The lemmas then state what the source promises about those functions:

- the address is fresh, and the registry grows by exactly that address;
- the counter chosen is the least free one, and the collision loop stops;
- a batch's addresses are pairwise distinct, and row `i` gets the answer against the rows before it;
- the base comes out as described for one token and for several;
- each filter keeps exactly the matching rows, in order.

Where the code's behaviour differs from what one might expect, the model follows the code:

- **Empty name.** A name that is empty after cleaning is not rejected. It gives the base `""`, so its first candidate is `@gmail.com` (`EmailExamples.EmptyName`); a second empty name in the same batch gets `1@gmail.com`.
- **Leading whitespace.** A cleaned name that starts with whitespace fails. `re.split` then yields an empty first token and at least one more, so `name_parts[0][0]` at functions.py:20 raises `IndexError`. The model returns `Err(IndexError)` and leaves the registry unchanged. A batch with such a row fails as a whole, because the exception leaves `apply` at functions.py:37; no row is skipped.
- **Whitespace-only name.** Such a name starts with whitespace after cleaning, splits into `['', '']` and fails with `IndexError` (`EmailExamples.WhitespaceOnly`).
- **Trailing whitespace.** A name that ends in whitespace gets an empty last token, so "Madonna " gives the base `m` (`EmailExamples.TrailingSpace`).
- **Empty tokens.** Tokens can therefore be empty at either end of the split.
- **The strip at functions.py:22.** It never changes the base, because no token holds whitespace (`NameNormalizer.StripNoSpace`).

## Model

| member | source | states |
|---|---|---|
| CharClasses.ToLower | functions.py:16 | `str.lower()` on one character maps exactly the ASCII capitals to their lower-case letters and leaves everything else alone; it keeps whether a character is a word character and whether it is whitespace |
| Decimal.IntToString | functions.py:28 | the numeral of the counter is non-empty, all digits, and starts with `0` only for zero |
| Decimal.ParseIntToString | functions.py:28 | reading the numeral back gives the counter: the rendering loses nothing |
| Decimal.IntToStringInjective | functions.py:28 | distinct counters have distinct numerals |
| TokenSplit.Split | functions.py:16 | `re.split(r'\s+', s)` always returns at least one piece |
| TokenSplit.SplitWellFormed | functions.py:16 | the pieces hold no whitespace and only the first and last can be empty; the first is non-empty when `s` starts with a non-space |
| TokenSplit.SplitSingle | functions.py:16-18 | the split has exactly one piece if and only if `s` has no whitespace, and that piece is then `s` |
| TokenSplit.FirstToken | functions.py:16-20 | the first piece is the longest whitespace-free prefix, and it is empty if and only if `s` is empty or starts with whitespace |
| TokenSplit.LastToken | functions.py:16-20 | the last piece (`name_parts[-1]`) is the longest whitespace-free suffix |
| TokenSplit.SplitCharsFrom | functions.py:16 | every character of every piece is a character of the split string |
| TokenSplit.SplitJoin | functions.py:16 | splitting tokens joined by single spaces gives the tokens back, for every sequence of the shape a split returns |
| TokenSplit.SplitJoinTrailingSpace | functions.py:16 | a trailing space after the joined non-empty tokens splits off one more, empty, piece |
| NameNormalizer.CleanAppend | functions.py:16 | the substitution deletes characters independently: it distributes over concatenation |
| NameNormalizer.CleanChars | functions.py:16 | the substitution keeps only word and whitespace characters, each taken from its input, and never lengthens it |
| NameNormalizer.CleanKeeps | functions.py:16 | a string of word and whitespace characters passes the substitution unchanged |
| NameNormalizer.CleanedChars | functions.py:16 | after lower-casing and the substitution only whitespace and lower-case word characters remain |
| NameNormalizer.NormalizeTokens | functions.py:16 | the tokens are split-shaped and made of lower-case word characters only |
| NameNormalizer.LowerJoin | functions.py:16 | lower-casing tokens joined by spaces is joining the lower-cased tokens |
| NameNormalizer.NormalizeIdempotent | functions.py:16 | normalising the space-joined tokens of a name gives the same tokens |
| NameNormalizer.StripNoSpace | functions.py:22 | `str.strip()` leaves a whitespace-free string unchanged |
| EmailAssigner.EmailBaseSpec | functions.py:16-22 | on the cleaned name `c`: the base fails if and only if `c` starts with whitespace; a `c` without whitespace is its own base; otherwise the base is `c[0]` followed by the longest whitespace-free suffix of `c`; every base is lower-case word characters |
| EmailAssigner.BaseOfSplit | functions.py:17-22 | the same three cases, stated on the pieces of `re.split` |
| EmailAssigner.BaseAfterLeadingSpace | functions.py:20 | a split string starting with whitespace makes `name_parts[0][0]` fail |
| EmailAssigner.BaseOfSeveralTokens | functions.py:17-22 | with several pieces and a non-space first character, the base is that character followed by the last piece |
| EmailAssigner.BaseChars | functions.py:17-22 | a base built from lower-case word tokens is lower-case word characters |
| EmailAssigner.JoinedWordsNormalize | functions.py:16 | word tokens joined by single spaces normalise to the lower-cased tokens |
| EmailAssigner.BaseOfWords | functions.py:17-22 | for non-empty lower-case word tokens: one token is the base; several give the first token's initial followed by the last token |
| EmailAssigner.SingleWordBase | functions.py:16-18 | a one-word name never fails, and its base is the word lower-cased |
| EmailAssigner.JoinedWordsBase | functions.py:16-20 | a name of two or more words separated by single spaces never fails; its base is the lower-cased initial of the first word followed by the lower-cased last word |
| EmailAssigner.TrailingSpaceNormalize | functions.py:16 | one trailing space after space-joined words adds an empty last token |
| EmailAssigner.TrailingSpaceBase | functions.py:16-22 | so the base of such a name is the lower-cased initial alone |
| EmailAssigner.PunctuationIgnored | functions.py:16 | inserting a character that is neither a word character nor whitespace anywhere in a name leaves its base unchanged |
| EmailAssigner.LeadingSpaceFails | functions.py:16-20 | a name starting with whitespace makes generate_email fail with IndexError |
| EmailAssigner.CandidateInjective | functions.py:25-28 | for one base, distinct counter values give distinct candidates |
| EmailAssigner.CandidateSetSize | functions.py:26-29 | the candidates for counters `0 .. k-1` are `k` distinct strings |
| EmailAssigner.CandidatesBound | functions.py:26-29 | a registry that holds the first `k` candidates has at least `k` entries, so the loop runs at most `|existing_emails|` times |
| EmailAssigner.FreeFrom | functions.py:26-29 | from counter `k` on, the first counter whose candidate is free; all before it are taken |
| EmailAssigner.LeastFree | functions.py:26-29 | the counter the loop stops at: its candidate is free and every smaller counter's candidate is taken |
| EmailAssigner.LeastFreeUnique | functions.py:26-29 | any counter with that property is the one the loop stops at |
| EmailAssigner.EmailFor | functions.py:15-32 | the answer fails exactly when the base fails; it is never in the registry; it is `base@gmail.com` when that is free, and otherwise `base + k + "@gmail.com"` for some `k >= 1` whose smaller candidates are all taken |
| EmailAssigner.EmailForLeastFree | functions.py:25-29 | the answer is the candidate with the least free counter |
| EmailAssigner.EmailRegistry.constructor | functions.py:36 | a batch's registry starts empty |
| EmailAssigner.EmailRegistry.GenerateEmail | functions.py:15-32 | returns `EmailFor(name, old registry)`; on success the address was not in the registry and the registry grows by exactly it; on error the registry is unchanged |
| EmailAssigner.BatchUnique | functions.py:35-38 | a successful batch has one email per name, pairwise distinct, none in the starting registry |
| EmailAssigner.BatchRows | functions.py:35-38 | row `i` gets what generate_email returns against the starting registry plus the emails of rows `0 .. i-1` |
| EmailAssigner.BatchFailsIff | functions.py:35-38 | the batch fails if and only if some row's name makes generate_email fail |
| EmailAssigner.NextCandidate | functions.py:25-31 | against a registry holding exactly the first `lo` candidates of the base, the answer is candidate `lo`, and adding it gives the first `lo + 1` |
| EmailAssigner.RepeatedNameFrom | functions.py:25-37 | `n` rows of one name, against a registry holding the first `lo` candidates of its base `b`, get candidates `lo`, `lo+1`, ..., `lo+n-1` in row order |
| EmailAssigner.RepeatedName | functions.py:25-37 | a fresh batch of `n` rows with one name gets `base@gmail.com`, `base1@gmail.com`, ..., `base(n-1)@gmail.com` in row order |
| EmailAssigner.GenerateEmailsForStudents | functions.py:35-38 | the loop with one fresh registry returns `BatchEmails(names, {})`: on success one email per name, pairwise distinct |
| RecordClassifier.SelectAppend | functions.py:42-43 | a row filter distributes over concatenation of rows |
| RecordClassifier.SelectAtKeptIndices | functions.py:42-43 | the k-th selected name is the name of the k-th kept row |
| RecordClassifier.KeptIndicesIncreasing | functions.py:42-43 | the kept rows are listed in row order |
| RecordClassifier.KeptIndicesComplete | functions.py:42-43 | every row the mask keeps is listed |
| RecordClassifier.SelectIsSubsequence | functions.py:41-50 | a filter returns the names of exactly the kept rows, each once, in row order |
| RecordClassifier.SelectMembership | functions.py:41-50 | a name is selected if and only if some kept row carries it |
| RecordClassifier.GenderPartition | functions.py:41-44 | the male list, the female list and the unrecognised rows' names together are the names column, as a multiset and in count |
| RecordClassifier.UnrecognizedIgnored | functions.py:41-44 | a row whose gender is neither `'M'` nor `'F'` changes neither list |
| RecordClassifier.MaleRowAppended | functions.py:42-43 | an `'M'` row adds its name at its place in the male list and leaves the female list alone |
| RecordClassifier.FemaleRowAppended | functions.py:42-43 | an `'F'` row adds its name at its place in the female list and leaves the male list alone |
| RecordClassifier.SpecialCharacterMembership | functions.py:47-50 | a name is listed if and only if some row carries it and it holds a character outside `a-zA-Z`, whitespace and comma |
| RecordClassifier.SpecialCharacterExamples | functions.py:48-49 | "Jo-Ann", "O'Brien" and an accented name are flagged; "Jo, Ann" and a name with a tab are not |
| EmailExamples.JohnSmith | functions.py:16-22 | "John Smith" gives the base `jsmith` |
| EmailExamples.Madonna | functions.py:16-22 | "Madonna" gives the base `madonna` |
| EmailExamples.MaryAnnSmith | functions.py:16-22 | "Mary Ann Smith" gives `msmith`: middle tokens play no part |
| EmailExamples.JoAnnSmithUnhyphenated | functions.py:16-22 | "JoAnn Smith" gives `jsmith` |
| EmailExamples.JoAnnSmith | functions.py:16-22 | "Jo-Ann Smith" gives `jsmith`: the hyphen is deleted |
| EmailExamples.LeadingSpace | functions.py:16-20 | " John Smith" fails with IndexError |
| EmailExamples.WhitespaceOnly | functions.py:16-20 | a name of one space splits into `["", ""]` and fails with IndexError |
| EmailExamples.TrailingSpace | functions.py:16-22 | "Madonna " gives the base `m` |
| EmailExamples.EmptyName | functions.py:15-32 | against an empty registry the empty name gets `@gmail.com` |
| EmailExamples.FirstJohnSmith | functions.py:25-29 | against an empty registry "John Smith" gets `jsmith@gmail.com` |
| EmailExamples.SecondJohnSmith | functions.py:25-29 | with `jsmith@gmail.com` taken it gets `jsmith1@gmail.com` |
| EmailExamples.ThirdJohnSmith | functions.py:25-29 | with `jsmith@` and `jsmith1@` taken it gets `jsmith2@gmail.com` |
| EmailExamples.OneJohnSmithLeft | functions.py:35-38 | one row against a registry with two taken gets `jsmith2@gmail.com` |
| EmailExamples.TwoJohnSmithsLeft | functions.py:35-38 | two rows against a registry with one taken get `jsmith1@` then `jsmith2@` |
| EmailExamples.ThreeJohnSmiths | functions.py:35-38 | three "John Smith" rows in a fresh batch get `jsmith@`, `jsmith1@` and `jsmith2@gmail.com` |

## Left out

- `read_student_data` (functions.py:5-12) reads an Excel workbook through pandas. That is I/O and is not modelled.
- `main.py` is driver code: file paths, `to_excel` output and printing. It is not modelled.
- DataFrame mechanics are not modelled. Rows are a sequence of name and gender pairs. Cells that are NaN or not strings, and the exceptions pandas raises for them, are outside the model.
- The regular-expression engine is not modelled. The classes `[^\w\s]`, `\s+` and `[^a-zA-Z\s,]` are encoded directly as predicates on characters.
- `\w` is restricted to ASCII letters, digits and underscore. Python's Unicode `\w` also matches non-ASCII letters and digits, which the model deletes instead. This can change the outcome, not only the text: a first token made only of non-ASCII letters disappears, so "Ñ Smith", which Python turns into `ñsmith@gmail.com`, fails with `IndexError` in the model, and "Émile Zola" gets the base `mzola` instead of `ézola`.
- `str.lower()` is restricted to ASCII capitals. Non-ASCII capitals are left as they are and then deleted as non-word characters.
- `\s` and `str.strip()` use Python's exact whitespace set.
- Embedding-based similarity scoring and record fusion are not modelled: no code for them is among the modelled files.
- GenerateEmailsForStudents: returns the emails as a sequence rather than writing an `'Email Address'` column into the data frame.
- GenerateEmailsForStudents: a failing row fails the whole batch, as the raised exception does. The registry built up to that row is not returned.
- Exceptions other than the `IndexError` at functions.py:20 are not modelled, for example an `AttributeError` from `name.lower()` for a NaN or numeric cell.
