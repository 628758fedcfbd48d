# Rules for AI: the deterministic core of the rule-file pipeline

Rules for AI turns a code repository into a directory of Cursor rule files: a
`guide.mdc` index and one `.mdc` chapter per core abstraction. The pipeline
in `nodes.py` has six stages: FetchRepo, IdentifyAbstractions,
AnalyzeRelationships, OrderChapters, WriteChapters and CombineTutorial.
Around each language-model call, a stage does deterministic work:

- it cuts a fenced YAML block out of the answer;
- it validates the loaded document against the shape it asked for;
- it turns indices into names, files and links;
- it assembles the chapter files and the guide.

This project models that work in Dafny and proves what it guarantees.

Two things are parameters of the model, not parts of it:

- the language-model answers, as plain strings;
- the YAML loader, `load: string -> Option<Value>`, where `None` means the loader raises.

A stage returns `Err(e)` where the Python code raises. `Outcome.Error` has one constructor per kind of raise.

Modules, in pipeline order:

- `Outcome`: options, results, and `MapAll`, the "validate every item, stop at the first failure" loop.
- `Text`, `PyInt`: the Python string operations and the `str(n)`/`int(s)` conversions the code relies on.
- `Yaml`: the loaded-document datatype and the two fenced-block rules.
- `IndexEntries`: the rule that reads an index out of an entry such as `3 # Parser`.
- `SortedSets`: `sorted(set(xs))` on integers.
- `FileContent`: `get_content_for_indices`.
- One module per stage: `FetchRepo`, `IdentifyAbstractions`, `AnalyzeRelationships`, `OrderChapters`, `ChapterOutput` with `WriteChapters`, and `CombineTutorial`.

WriteChapters keeps the chapters written so far in an instance field, across its
`exec` calls. It is modelled as the class `WriteChapters.ChapterWriter`, whose field
`written` is `None` while the Python attribute does not exist.

## Model

| member | source | states |
|---|---|---|
| Outcome.MapAll | nodes.py:167-209 | Success exactly when every item passes. Then there is one value per item, in input order. A failure carries the error of the first failing item, and every item before it passes. |
| Outcome.Traverse | nodes.py:168-199 | The validation loop, which appends each value and returns at the first error, computes exactly `MapAll`. |
| Text.LStrip | nodes.py:161 | The result is a suffix of the input. Everything dropped is whitespace. The result does not start with whitespace. |
| Text.RStrip | nodes.py:161 | The result is a prefix of the input. Everything dropped is whitespace. The result does not end with whitespace. |
| Text.Strip | nodes.py:161 | The result is no longer than the input, and neither of its ends is whitespace. |
| Text.StripIsInfix | nodes.py:161 | `strip()` returns a contiguous piece of the input, and only whitespace lies on either side of it. |
| Text.StripKeeps | nodes.py:205-206 | A text whose ends are not whitespace is unchanged by `strip()`. |
| Text.StripIdempotent | nodes.py:643 | Stripping twice is stripping once. |
| Text.StripKeepsPrefix | nodes.py:655 | A prefix whose ends are not whitespace survives `strip()` of any text it starts. |
| Text.StripTrailingSpace | nodes.py:187 | A trimmed text followed by one whitespace character strips back to itself. |
| Text.RStripChar | nodes.py:626 | `rstrip("```")` drops exactly the trailing run of backticks: the result is a prefix, everything dropped is a backtick, and the result does not end in one. |
| Text.FindFrom | nodes.py:161 | The result is the first occurrence of the pattern at or after the start position, or `None` when there is none. |
| Text.Find | nodes.py:161 | The result is the first occurrence of the pattern. It is `None` exactly when the text does not contain the pattern. |
| Text.Before | nodes.py:187 | `split(sep)[0]` is a prefix of the text that holds no separator. It ends where the first separator begins, and it is the whole text when there is no separator. |
| Text.BeforeUnique | nodes.py:187 | Those properties determine `split(sep)[0]`: any prefix that ends where the first separator begins, or is the whole text when there is none, is it. |
| Text.FirstCutIsBefore | nodes.py:161 | When the first separator of `head + tail` begins where `tail` does, and `tail` is empty exactly when there is no separator, `head` is `split(sep)[0]`. |
| Text.After | nodes.py:161 | `split(sep)[1]` exists exactly when the separator occurs. The text is then the first piece, the separator and the rest. |
| Text.Split | nodes.py:320 | `split` always yields at least one piece, and the first piece is `split(sep)[0]`. |
| Text.JoinSplit | nodes.py:657-662 | Joining the pieces of a split with the same separator gives back the text. |
| Text.SplitJoin | nodes.py:36 | Splitting `sep.join(parts)` at `sep` gives back the parts, when no part holds the separator and the separator cannot overlap itself. |
| Text.SplitLastPiece | nodes.py:36 | `split("/")[-1]` is the text after the last slash. |
| Text.SplitCount | nodes.py:320 | Splitting on a character gives one more piece than the character has occurrences. |
| Text.CountJoin | nodes.py:252 | Joining with a character adds one occurrence of it per gap, on top of those inside the parts. |
| Text.Lower | nodes.py:486-488 | `lower()` keeps the length and maps each character through ASCII lower-casing. WriteChapters.FilenameShape and WriteChapters.SafeNameKept build on it. |
| PyInt.DecimalString | nodes.py:21 | `str(n)` of an integer. Its properties are stated by PyInt.DecimalStringChars, PyInt.DecimalRoundTrip and PyInt.DecimalStringInjective. |
| PyInt.ParseInt | nodes.py:189 | `int(s)`: surrounding whitespace ignored, one optional sign, then ASCII digits with single underscores between them; `None` where Python raises ValueError. Its properties are stated by PyInt.DecimalRoundTrip, PyInt.PaddedRoundTrip, PyInt.ParseIntSeesStrip and PyInt.ParseIntNeedsSignOrDigit. |
| PyInt.NatString | nodes.py:21 | `str(n)` of a non-negative number is a non-empty string of digits. |
| PyInt.NatStringValue | nodes.py:189 | The digits of `str(n)` are well formed for `int()` and denote `n`. |
| PyInt.DecimalStringChars | nodes.py:21 | `str(n)` is non-empty and holds only digits, plus a leading minus sign when `n` is negative. |
| PyInt.DecimalRoundTrip | nodes.py:189 | `int(str(n)) == n` for every integer. |
| PyInt.PaddedRoundTrip | nodes.py:187 | `int(str(n) + " ") == n`: the text before " # " reads back as `n`. |
| PyInt.ParseIntSeesStrip | nodes.py:187 | `int()` depends only on the trimmed text. |
| PyInt.ParseIntNeedsSignOrDigit | nodes.py:189 | A trimmed text that starts with neither a sign nor an ASCII digit is rejected by `int()`; "## Left out" says where Python accepts other digits. |
| PyInt.DecimalStringInjective | nodes.py:21 | Distinct integers have distinct `str()` forms. |
| Yaml.FencedYaml | nodes.py:161 | The block rule of IdentifyAbstractions, AnalyzeRelationships (nodes.py:304) and OrderChapters (nodes.py:420). Its properties are stated by Yaml.FencedYamlParts. |
| Yaml.ChapterYaml | nodes.py:626 | The block rule of WriteChapters. Its properties are stated by Yaml.ChapterYamlParts and Yaml.ChapterRuleKeepsInnerFences. |
| Yaml.FencedYamlParts | nodes.py:161 | The block is found exactly when the trimmed answer holds "```yaml". The answer is then cut at its first "```yaml", the rest at the next "```yaml" (or the end), and that stretch at its first "```" (or its end); each cut is at the first occurrence, so the pieces are determined. The block is the trimmed first piece of the stretch, and holds no "```". |
| Yaml.ChapterYamlParts | nodes.py:626 | The chapter block is found exactly when the trimmed answer holds "```yaml". The answer is then cut at its first "```yaml" and the rest at the next "```yaml" (or the end), each at the first occurrence. The block is that stretch less its trailing run of backticks, so it does not end in a backtick. |
| Yaml.ChapterRuleKeepsInnerFences | nodes.py:626 | Under the chapter rule, a body between "```yaml" and a closing "```" comes back whole whenever it holds no "```yaml" and does not end in a backtick, so any plain "```" code fences inside it survive. |
| IndexEntries.Tagged | nodes.py:235 | `f"{i} # {text}"`, the entry format the prompts ask for. IndexEntries.TaggedRoundTrip states that both index rules read it back. |
| IndexEntries.ParseIndexEntry | nodes.py:184-189 | The index rule of IdentifyAbstractions and OrderChapters (nodes.py:430-435). IndexEntries.CheckIndex, IndexEntries.TaggedRoundTrip and IndexEntries.EndpointAgreesWithEntry state its behaviour. |
| IndexEntries.ParseEndpoint | nodes.py:335-336 | The endpoint rule of AnalyzeRelationships. IndexEntries.EndpointWithoutHash, IndexEntries.TaggedRoundTrip and IndexEntries.EndpointAgreesWithEntry state its behaviour. |
| IndexEntries.CheckIndex | nodes.py:183-199 | An entry passes exactly when it parses to an index in `[0, bound)`, and the value is that index. Every failure, out-of-range values included, is the single "could not parse" error. |
| IndexEntries.CheckedEntries | nodes.py:180-199 | For accepted entries: one index per entry, in order, each equal to the entry's parse and in range. Their set is the set of parsed values. |
| IndexEntries.DecimalHasNoHash | nodes.py:187 | `str(n)` holds no "#". |
| IndexEntries.TaggedBeforeHash | nodes.py:187 | The text of "`n` # comment" before the first "#" is `str(n) + " "`. |
| IndexEntries.TaggedRoundTrip | nodes.py:184-189 | "`n` # comment" reads back as `n` under both the entry rule and the endpoint rule (nodes.py:335). |
| IndexEntries.EndpointWithoutHash | nodes.py:335 | On a text without "#", the endpoint rule parses the whole text. |
| IndexEntries.WordRejected | nodes.py:189 | A capitalised word such as "Parser" is not an index. |
| IndexEntries.EndpointAgreesWithEntry | nodes.py:335-336 | The endpoint rule agrees with the entry rule on every value except booleans. The entry rule reads True/False as 1/0; the endpoint rule rejects "True"/"False". A null never parses. |
| SortedSets.Insert | nodes.py:201 | Inserting into an ascending list keeps it ascending and adds exactly that element. |
| SortedSets.SortedDistinct | nodes.py:201 | `sorted(set(xs))` is strictly increasing and holds exactly the elements of `xs`. |
| SortedSets.HeadIsLeast | nodes.py:201 | The first element of an ascending list is its least element. |
| SortedSets.AscendingUnique | nodes.py:201 | Two strictly increasing lists with the same elements are equal. |
| SortedSets.SortedDistinctUnique | nodes.py:201 | Any strictly increasing list with the elements of `xs` is `sorted(set(xs))`. |
| SortedSets.AscendingLength | nodes.py:201 | A strictly increasing list has as many elements as its set, so it has no repeats. |
| FileContent.ContentMap | nodes.py:16-24 | The dictionary `get_content_for_indices` builds. FileContent.ContentMapSpec states its keys and values. |
| FileContent.KeyInjective | nodes.py:21 | Different index-and-path pairs give different "`i` # `path`" keys, so no entry overwrites another. |
| FileContent.ContentMapSpec | nodes.py:16-24 | Every requested in-range index has its content under "`i` # `path`". Every key comes from a requested in-range index. Out-of-range indices are dropped. |
| FileContent.GetContentForIndices | nodes.py:16-24 | The loop builds exactly that map, with the content of every requested in-range file. |
| FetchRepo.RepoName | nodes.py:36 | The name derived from a URL. FetchRepo.RepoNameRemovesEveryGit, FetchRepo.RepoNameOfPlainSegment and FetchRepo.RepoNameOfCloneUrl state it. |
| FetchRepo.DeriveProjectName | nodes.py:31-39 | `prep`'s name rule. FetchRepo.ProjectNameFromCloneUrl states it for clone URLs. |
| FetchRepo.RepoNameRemovesEveryGit | nodes.py:36 | For a last segment made of pieces joined by ".git", where no piece holds "/" or ".git", the project name is the pieces run together: every ".git" is removed, inner ones included. |
| FetchRepo.RepoNameOfPlainSegment | nodes.py:36 | The name of a URL whose last segment holds no ".git" is that segment. |
| FetchRepo.RepoNameOfCloneUrl | nodes.py:36 | The name of ".../name.git" is `name`. |
| FetchRepo.ProjectNameFromCloneUrl | nodes.py:33-39 | A missing or empty project name is derived from the URL. |
| FetchRepo.FetchExec | nodes.py:77-82 | The crawl result fails exactly when it has no files, with the "failed to fetch" error. Otherwise it is passed on unchanged. |
| IdentifyAbstractions.ValidateItem | nodes.py:168-209 | The validation of one item. IdentifyAbstractions.ItemAccepted and IdentifyAbstractions.AcceptedItemShape state it. |
| IdentifyAbstractions.ValidateAbstractions | nodes.py:164-209 | The validation of the document. IdentifyAbstractions.AbstractionsAccepted states it. |
| IdentifyAbstractions.ItemAccepted | nodes.py:169-199 | An item is accepted exactly when it is a mapping with the three keys, string name and description, a list of indices, and every index entry parses in range. |
| IdentifyAbstractions.AcceptedItemShape | nodes.py:201-209 | An accepted item has its name and description trimmed. Its `files` are strictly increasing, in range, and form exactly the set of parsed indices, with no repeats. |
| IdentifyAbstractions.AbstractionsAccepted | nodes.py:164-209 | The document is accepted exactly when it is a list of well-formed items. It then yields one abstraction per item, in order. On a list, the error is that of the first bad item. |
| IdentifyAbstractions.CheckItem | nodes.py:168-209 | The per-item loop with its index loop computes the item validation. |
| IdentifyAbstractions.ValidateAbstractionList | nodes.py:164-209 | The outer loop computes the validation of the whole document. |
| IdentifyAbstractions.Exec | nodes.py:161-212 | No "```yaml", an unloadable block and an invalid document are each rejected with their own error. Otherwise the result is the validated list. |
| AnalyzeRelationships.AbstractionListing | nodes.py:235-252 | The abstraction listing `prep` hands on. AnalyzeRelationships.Prep and AnalyzeRelationships.ListingLineCount state it. |
| AnalyzeRelationships.LineCount | nodes.py:320 | `len(listing.split("\n"))`, the bound `exec` uses. AnalyzeRelationships.ListingLineCount states its value. |
| AnalyzeRelationships.CheckRelationship | nodes.py:321-351 | The validation of one relationship. AnalyzeRelationships.RelationshipAccepted states it. |
| AnalyzeRelationships.ValidateRelationships | nodes.py:307-351 | The validation of the document. AnalyzeRelationships.RelationshipsAccepted states it. |
| AnalyzeRelationships.TaggedNames | nodes.py:235 | The listing holds one "`i` # name" line per abstraction, in order. AnalyzeRelationships.ListingLineCount builds on it. |
| AnalyzeRelationships.AllFilesMembers | nodes.py:236 | The collected indices are exactly those some abstraction lists. |
| AnalyzeRelationships.Prep | nodes.py:221-254 | `prep` returns the listing. It also returns the content of exactly the files, keyed "`j` # path", that some abstraction lists. A boolean file entry is keyed by its integer value here; "## Left out" says how Python prints it. |
| AnalyzeRelationships.ListingLineCount | nodes.py:320 | The line count of the listing is 1 for no abstractions. Otherwise it is their number plus the newlines inside the names. It equals the number of abstractions when no name holds a newline. |
| AnalyzeRelationships.RelationshipAccepted | nodes.py:323-351 | An item is accepted exactly when it has the three keys, a string label, and both endpoints parse in range. The result carries those endpoints and the label unchanged. |
| AnalyzeRelationships.RelationshipsAccepted | nodes.py:307-357 | The document is accepted exactly when every key and type is right and every item is well formed. The summary is kept, and there is one relationship per item, in order, with labels unchanged and endpoints in range. |
| AnalyzeRelationships.ValidateRelationshipData | nodes.py:307-351 | The validation loop computes that validation. |
| AnalyzeRelationships.ExecEndpointsInRange | nodes.py:337-339 | Every endpoint of an accepted answer is below the bound used. |
| AnalyzeRelationships.Exec | nodes.py:304-357 | `exec` as written: the bound is the line count of the listing. No block and an unloadable block are rejected. |
| AnalyzeRelationships.ExecCorrected | nodes.py:320-339 | The corrected `exec` uses the number of abstractions as the bound, so every accepted endpoint names an abstraction. |
| AnalyzeRelationships.CheckResponse | nodes.py:304-305 | Cutting, loading and validating an answer computes the stage result for the given bound. |
| OrderChapters.ValidateOrder | nodes.py:423-455 | The validation of the order. OrderChapters.OrderAccepted and OrderChapters.DuplicateRejected state it. |
| OrderChapters.PrepResult | nodes.py:365-389 | What `prep` hands on, or its IndexError. OrderChapters.Prep and OrderChapters.CorrectedRelationshipsIndexable state it. |
| OrderChapters.RangeSet | nodes.py:454 | `set(range(n))` holds exactly the integers in `[0, n)`. |
| OrderChapters.DistinctInRange | nodes.py:452 | Distinct indices in `[0, n)` number at most `n`. Exactly `n` of them cover the whole range. |
| OrderChapters.DuplicateRejected | nodes.py:441-442 | An index already seen makes the whole order fail with the "could not parse" error. |
| OrderChapters.CheckOrder | nodes.py:423-458 | The loop with its set of seen indices computes the order validation. |
| OrderChapters.OrderAccepted | nodes.py:423-458 | An order is accepted exactly when it is a list of `n` entries that parse in range to pairwise distinct indices. It is then a permutation of `0..n-1` in entry order. A length mismatch means entries are missing. |
| OrderChapters.Prep | nodes.py:365-389 | `prep` fails with IndexError exactly when some relationship endpoint is not a valid Python index (`-n <= i < n`) into the abstractions. |
| OrderChapters.Exec | nodes.py:420-458 | No block and an unloadable block are rejected. Otherwise the result is the order validation against the number of abstractions. |
| OrderChapters.EmptyListingAdmitsRelationship | nodes.py:320 | With no abstractions, the line-count bound is 1. A relationship from 0 to 0 is accepted, and the next `prep` fails at `abstractions[0]`. |
| OrderChapters.CorrectedRelationshipsIndexable | nodes.py:378-380 | With the corrected bound, every accepted relationship passes OrderChapters' `prep`. |
| ChapterOutput.NormalGlobs | nodes.py:638-643 | The globs normalisation. ChapterOutput.ChapterAccepted and ChapterOutput.EmptyGlobsLine state its effect. |
| ChapterOutput.RepairHeading | nodes.py:653-664 | The heading rule. ChapterOutput.RepairCases, ChapterOutput.RepairedBodyHasHeading and ChapterOutput.RepairIdempotent state it. |
| ChapterOutput.FrontMatter | nodes.py:666-673 | The front matter, with description and globs trimmed. ChapterOutput.ChapterAccepted and ChapterOutput.EmptyGlobsLine use it. |
| ChapterOutput.NormalizeChapter | nodes.py:630-676 | The clean-up of one loaded chapter. ChapterOutput.ChapterAccepted states it. |
| ChapterOutput.ChapterAccepted | nodes.py:630-676 | A chapter is accepted exactly when it has the four keys and a bool `alwaysApply`, with string content and description, and globs that are null, an empty list or a string. The result is the front matter, with globs trimmed or " ", followed by the repaired body. |
| ChapterOutput.EmptyGlobsLine | nodes.py:638-673 | Null or empty globs give an empty `globs:` line. |
| ChapterOutput.HeadedSurvivesStrip | nodes.py:655 | A body that starts with the full heading passes the heading check. |
| ChapterOutput.RepairCases | nodes.py:653-664 | Content that already starts with "# Chapter `n`" once trimmed is kept. Otherwise, with `t` the trimmed content: when the first line of `t` is a heading, the result is "# Chapter `n`: name" followed by `t` from its first newline on; else it is the heading, a blank line and the untrimmed content. |
| ChapterOutput.RepairedBodyHasHeading | nodes.py:653-664 | After the repair, the trimmed body always starts with "# Chapter `n`". |
| ChapterOutput.RepairIdempotent | nodes.py:655-664 | Repairing a repaired body changes nothing. |
| WriteChapters.ChapterFilename | nodes.py:486-489 | The chapter file name. WriteChapters.FilenameShape and WriteChapters.SafeNameKept state it. |
| WriteChapters.Sanitized | nodes.py:486-487 | The length is kept. Each alphanumeric character is kept and every other becomes "_". WriteChapters.FilenameShape and WriteChapters.SafeNameKept build on it. |
| WriteChapters.FilenameShape | nodes.py:486-489 | The filename is the name's length plus 4 and ends in ".mdc". Each character is the lower-cased original or "_", and lies in `a-z0-9_`. |
| WriteChapters.SafeNameKept | nodes.py:486-489 | A name already made of `a-z0-9_` is kept, with ".mdc" appended. |
| WriteChapters.ChapterTable | nodes.py:479-497 | `chapter_filenames` after the first loop. WriteChapters.TableKeys and WriteChapters.TableEntries state it. |
| WriteChapters.ChapterLinks | nodes.py:479-491 | `all_chapters`, one link per in-range entry. WriteChapters.BuildTable computes it. |
| WriteChapters.ItemAt | nodes.py:503-538 | The item for one position of the order. WriteChapters.ItemAtShape, WriteChapters.ItemAtFails and WriteChapters.ItemOfValidOrder state it. |
| WriteChapters.PrepItems | nodes.py:502-545 | `prep`'s work items. WriteChapters.ItemsFollowOrder, WriteChapters.PrepSucceeds and WriteChapters.PrepItemsOfValidOrder state it. |
| WriteChapters.TableKeys | nodes.py:479-497 | The filename table has an entry for exactly the in-range order entries. |
| WriteChapters.TableEntries | nodes.py:493-497 | For a repeat-free order, the entry of the abstraction at position `q` is chapter `q + 1`, with that abstraction's name and filename. |
| WriteChapters.ItemAtShape | nodes.py:503-538 | No item is made for an out-of-range entry. An item for position `i` is chapter `i + 1` and names the abstraction at that position. Only the first item has no previous chapter, and only the last has no next one. |
| WriteChapters.ItemsFollowOrder | nodes.py:502-545 | The items are in position order, all placed correctly, and every in-range position has one. |
| WriteChapters.ItemsUpToOk | nodes.py:502-545 | The item loop succeeds exactly when no position raises. |
| WriteChapters.ItemAtFails | nodes.py:514-523 | A position raises KeyError exactly when its entry is in range and a neighbour entry is not. |
| WriteChapters.AllOrNone | nodes.py:514-523 | Neighbours always agree on being in range exactly when all entries are in range or none are. |
| WriteChapters.PrepOkAtEveryPosition | nodes.py:502-545 | `prep` succeeds exactly when every position is free of a KeyError. |
| WriteChapters.PositionsOkIffNeighboursAgree | nodes.py:514-523 | Every position is free of a KeyError exactly when neighbouring entries agree on being in range. |
| WriteChapters.PrepSucceeds | nodes.py:466-545 | `prep` succeeds exactly when every order entry is in range or none is. |
| WriteChapters.ErrorPersists | nodes.py:517-523 | Once the item loop raises, later positions do not change the outcome. |
| WriteChapters.ItemsAllInRange | nodes.py:502-545 | With every entry in range and tabled, there is one item per position. |
| WriteChapters.ItemOfValidOrder | nodes.py:525-537 | For a valid order, position `p` gives chapter `p + 1`. Its files are the contents of its abstraction's files. Its neighbours are the table entries of the adjacent positions. |
| WriteChapters.PrepItemsOfValidOrder | nodes.py:466-545 | For a valid order (the result of OrderChapters), `prep` succeeds with exactly one such item per position. |
| WriteChapters.BuildTable | nodes.py:477-500 | The first loop builds exactly the filename table and the link list. |
| WriteChapters.BuildItems | nodes.py:502-545 | The second loop builds exactly the items, or the KeyError of the first failing position. |
| WriteChapters.ChapterResult | nodes.py:626-676 | The chapter `exec` makes from the answer: no block, an unloadable block, or the clean-up of ChapterOutput.NormalizeChapter. WriteChapters.ChapterWriter.Exec uses it. |
| WriteChapters.PreviousChapters | nodes.py:565 | `"\n---\n".join` of the chapters written so far, the text WriteChapters.ChapterWriter.Exec hands the model. |
| WriteChapters.ChapterWriter.constructor | nodes.py:465 | A fresh node has no accumulator yet. |
| WriteChapters.ChapterWriter.Prep | nodes.py:466-545 | `prep` resets the accumulator to empty and returns the items. |
| WriteChapters.ChapterWriter.Exec | nodes.py:547-681 | Without a `prep`, `exec` raises AttributeError. Otherwise the prompt sees earlier chapters joined by "\n---\n", and the result is the normalised chapter. A success is appended to the accumulator; a failure leaves it unchanged. |
| WriteChapters.ChapterWriter.Post | nodes.py:683-688 | `post` passes the chapters on and deletes the accumulator. Without one, it raises AttributeError; Python has by then already stored the chapters in the shared store (nodes.py:685), which the model does not hold. |
| CombineTutorial.PathJoin | nodes.py:695 | `os.path.join` of two POSIX path parts. |
| CombineTutorial.GuideHeader | nodes.py:707-713 | The guide up to the chapter links. CombineTutorial.HeaderStartsWithFront and CombineTutorial.GuideShape state it. |
| CombineTutorial.WithAttribution | nodes.py:729-732 | A chapter with its attribution. CombineTutorial.AttributionShape states it. |
| CombineTutorial.PrepOutput | nodes.py:692-748 | What `prep` returns. CombineTutorial.Prep computes it; CombineTutorial.FilesFromPositions, CombineTutorial.FilesOfFullOrder and CombineTutorial.GuideShape state it. |
| CombineTutorial.Prep | nodes.py:692-748 | The loop that accumulates the guide text and the file list computes the output path, guide and files. |
| CombineTutorial.AttributionShape | nodes.py:729-732 | A chapter file starts with the chapter and ends with a blank line and the attribution. A chapter that already ends in a blank line gets no second one. |
| CombineTutorial.FilesFromPositions | nodes.py:717-740 | The files come, in order, from exactly the positions whose entry is in range and that have a chapter. There is at most one file per position and per chapter. |
| CombineTutorial.FilesOfFullOrder | nodes.py:717-735 | When every position produces a file, file `i` holds chapter `i` under its abstraction's filename. |
| CombineTutorial.HeaderStartsWithFront | nodes.py:707 | The guide header starts with its front matter. |
| CombineTutorial.GuideShape | nodes.py:707-742 | The guide starts with front matter whose `alwaysApply` is true, and it ends with the attribution. |
| CombineTutorial.NextLinkNamesNextFile | nodes.py:521-523 | A chapter's link to the next chapter names the file CombineTutorial writes that chapter to (nodes.py:722-725): the two stages compute filenames identically. |

## Left out

- Node, BatchNode and the flow engine, with their retries and fallbacks, are not part of this model. They are imported from the `pocketflow` package. Consequently the model does not fix the order of a BatchNode's `exec` calls. It only states what one call does to the accumulator.
- The language-model call (`utils/call_llm.py`) is a network call with an on-disk cache. Its answers are parameters. In `ChapterWriter.Exec`, the answer is a function of the item and of the previous-chapters text.
- `yaml.safe_load` is a library call and is the parameter `load`. Its output is the `Value` datatype. Mapping keys that are not strings are dropped, and floats, dates and binary values are the single constructor `Other`.
- The GitHub and local-directory crawlers are library calls. `FetchExec` takes the crawl result as its input.
- CombineTutorial's `exec` (nodes.py:750-772) only creates the directory and writes files, and is left out.
- The local-directory branch of the project name (nodes.py:38) depends on the working directory. The directory's base name is a parameter.
- The prompt texts, the context strings built only for prompts and logging have no behaviour to state. Two fields of a chapter item are read only by the prompt (the project name and the whole filename table), and are left out. The link listing is kept.
- IndexEntries.ParseIndexEntry: a YAML boolean entry is returned as the integer 1 or 0. Python keeps the `bool` itself (nodes.py:184-185), and `sorted(set(...))` at nodes.py:201 keeps it too (of `True` and `1`, whichever comes first). It then compares and indexes like 1 or 0, which the model captures. But `get_content_for_indices` prints it in its key (nodes.py:21, reached from nodes.py:240-242 and 509-511): Python keys that file "True # path" or "False # path", where AnalyzeRelationships.Prep and FileContent.ContentMapSpec state "1 # path" or "0 # path". Beyond those map keys, the printed form reaches only the prompts.
- `isalnum` and `lower` are modelled on ASCII letters and digits. `isspace`, and with it `strip`, uses Python's full whitespace set.
- PyInt.ParseInt: accepts only the ASCII digits 0-9. Python's `int()` also accepts every other Unicode decimal digit (`int("٣") == 3`, `int("３") == 3`), so an index entry written in such digits, which nodes.py:189, 336 and 435 accept, is rejected by the model. PyInt.ParseIntNeedsSignOrDigit is a statement about the model; of Python it holds for texts without such digits.
- `CombineTutorial.PrepOutput`: an `output_dir` key that is present but holds `None` is treated like a missing key. Python would pass `None` on to `os.path.join` and raise TypeError.
- The mapping returned by `get_content_for_indices` is a Dafny `map`, so the model does not capture its insertion order.

## Findings

| source | as written | input that shows it | evidently intended | confidence | as-written member | corrected member |
|---|---|---|---|---|---|---|
| nodes.py:320 | the endpoint bound is the number of lines of the abstraction listing | no abstractions (the listing "" has one line), relationship 0 -> 0 "uses": accepted, then OrderChapters' `prep` raises IndexError at nodes.py:379. A name holding a newline adds a line in the same way. | the bound is the number of abstractions | not executed | OrderChapters.EmptyListingAdmitsRelationship | OrderChapters.CorrectedRelationshipsIndexable |
