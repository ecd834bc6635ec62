# Australian company data pipeline — a verified model of its core

The pipeline builds a table of Australian companies, `core.company_master`, by linking two sources:

- websites found in the Common Crawl index;
- entities of the Australian Business Register (ABR).

Its core stages are these.

- **Extraction** (`FastCommonCrawlExtractor`):
  - walk the index pages for `*.au`;
  - keep each new hostname ending in `.au`;
  - guess a company name from the domain;
  - write the rows to `staging.commoncrawl_raw` in batches.
- **Cleaning** (`CommonCrawlCleaner`, `ABRCleaner`):
  - filter the raw rows on their names;
  - cut, strip and title-case the names;
  - derive a normalised name;
  - drop duplicate rows, by normalised name for crawled rows and by ABN for register rows.
- **Matching** (`EntityMatcher`):
  - strongly normalise every name;
  - block the register rows by their 3-character prefix and by their first token;
  - pre-filter the candidates with a token-set score;
  - rescore the best candidate with the maximum of three scorers;
  - decide by three thresholds:
    - above 90: write the match with high confidence;
    - 82 to 90: write it with medium confidence;
    - 78 to 81: send the pair to a local LLM;
    - below 78: reject it.
  - Matches are written with insert-if-absent on `(abn, website_url)`. The LLM jobs are collected by opportunistic drains and a final drain.
- **LLM validation** (`AIValidator`):
  - build a fixed prompt;
  - strip markdown fences from the reply;
  - parse it, or its first `{...}` block, as JSON;
  - turn it into a verdict with a confidence clamped to [0, 1] and rounded to four decimals.

## Modules

Each stage is one module, plus shared helpers.

- `CrawlExtractor` (crawl_extractor.dfy) is imperative: the run loop is a chain of methods with loop invariants. Each method is proved against `Collected(Delivered(pages))`, the specification of which domains are collected.
- `CleanCommonCrawl` and `CleanAbr` are pure. They are built on `Frames`, which models a chain of pandas masks as one row function, and `drop_duplicates(keep="first")` as `KeepFirst`.
- The matcher is split across modules:
  - `StrongNorm`: `strong_normalize` and its regex, scanned left to right with backtracking order;
  - `Scoring`: the composite score, the thresholds, the decision and `extractOne`;
  - `Blocking`: `build_indexes` and `_get_candidates`, as methods with loops;
  - `Matcher`: one row's decision;
  - `Pipeline`: the `fuzzy_match` loop over a `Database` class holding the two tables, with `_run_ai_job` and the drains.
- `AiValidator` is pure.
- `Records` holds the rows, `_build_record` and insert-if-absent. `Text` holds Python's string operations on ASCII. `Numbers` holds `round`. `NameCleaning` holds the normaliser that both cleaners share.

The rapidfuzz scorers, `json.loads`, `float()` of a string and `str()` of a value are foreign. They arrive as function-valued parameters.

## Model

| member | source | states |
|---|---|---|
| Text.Lower | src/transformation/clean_abr.py:18 | `str.lower`: same length, each character lower-cased |
| Text.Title | src/transformation/clean_abr.py:54 | `str.title` keeps the length |
| Text.TitleShape | src/transformation/clean_abr.py:54 | the result is title-cased (a letter is upper-case exactly when it follows a non-letter), keeps non-letters, and each character agrees with the input up to case |
| Text.Strip | src/transformation/clean_abr.py:48 | `str.strip`: the result starts and ends with a non-whitespace character, or is empty |
| Text.StripLeftSpaces | src/transformation/clean_abr.py:48 | `lstrip` removes only whitespace |
| Text.StripRightSpaces | src/transformation/clean_abr.py:48 | `rstrip` removes only whitespace |
| Text.Collapse | src/matching/entity_matcher.py:104 | `\s+` to one space: empty exactly when the input is empty, and starts with whitespace exactly when the input does |
| Text.CollapseSingleSpaced | src/matching/entity_matcher.py:104 | after the collapse, the only whitespace left is single spaces |
| Text.CollapseChars | src/matching/entity_matcher.py:104 | every non-space character of the collapsed text comes from the input |
| Text.CanonicalCollapseStrip | src/matching/entity_matcher.py:104 | single-spaced words of word characters are unchanged by the collapse and strip |
| Text.ReplaceAll | src/ingestion/commoncrawl_extractor.py:32-38 | `str.replace` introduces no character that is in neither the input nor the replacement |
| Text.WholeWordSub | src/transformation/clean_abr.py:20-23 | `re.sub(r"\bw\b", "", s)` introduces no new character |
| Text.WholeWordSubAbsent | src/transformation/clean_abr.py:20-23 | a word longer than the text, or whose first character is not in it, is not deleted |
| Text.WholeWordSubLeaves | src/transformation/clean_abr.py:20-23 | after `re.sub(r"\bw\b", "", s)` a phrase `v` stands whole only where `s` had it whole and `w` did not stand there: a deletion only joins two non-word characters |
| Text.WholeWordSubDeletes | src/transformation/clean_abr.py:20-23 | after the deletion of a phrase (word characters at both ends, never two non-word characters in a row), the phrase no longer stands whole anywhere |
| Text.WholeWordSubKeepsAbsent | src/transformation/clean_commoncrawl.py:21-30 | deleting one phrase never makes another phrase stand whole |
| Text.DeletePunct | src/transformation/clean_abr.py:25 | `[^\w\s]` deleted: only word and whitespace characters remain, all from the input |
| Text.Prefix3 | src/matching/entity_matcher.py:184 | `sn[:3]`: at most three characters, a prefix of the input |
| Numbers.RoundHalfEven | src/matching/ai_validator.py:118-120 | the result is within 0.5 of its argument, and a tie goes to the even integer |
| Numbers.Round2 | src/matching/entity_matcher.py:318 | `round(x, 2)` is within 0.005 of `x` |
| Numbers.Round2Exact | src/matching/entity_matcher.py:318 | a value with two decimals is unchanged |
| Numbers.Round2Ties | src/matching/entity_matcher.py:318 | 0.125 rounds to 0.12 and 0.375 to 0.38 |
| Numbers.Round4 | src/matching/ai_validator.py:118-120 | `round(x, 4)` is within 0.00005 of `x` and keeps a value of [0, 1] in [0, 1] |
| Numbers.Round4Exact | src/matching/ai_validator.py:118-120 | a value with four decimals is unchanged |
| NameCleaning.DeleteLegalSuffixes | src/transformation/clean_abr.py:20-23 | deleting "pty ltd", "ltd", "limited" and "pty" introduces no new character |
| NameCleaning.DeleteLegalSuffixesNone | src/transformation/clean_abr.py:20-23 | a name in which no suffix stands whole is unchanged |
| NameCleaning.DeleteLegalSuffixesDeletes | src/transformation/clean_abr.py:20-23 | after the four deletions none of "pty ltd", "ltd", "limited" and "pty" stands whole |
| NameCleaning.KeepsNoLegalSuffix | src/transformation/clean_commoncrawl.py:27-30 | a later phrase deletion does not bring a legal suffix back |
| NameCleaning.TidyShape | src/transformation/clean_abr.py:25-28 | deleting punctuation, collapsing and stripping a lower-case text gives lower-case single-spaced words |
| NameCleaning.TidyCanonical | src/transformation/clean_abr.py:25-28 | single-spaced words are already tidy |
| NameCleaning.TidyBlank | src/transformation/clean_abr.py:25-28 | a tidied name is blank exactly when it is empty |
| CleanAbr.NormalizeName | src/transformation/clean_abr.py:14-28 | `None` exactly for a missing or empty name |
| CleanAbr.NormalizeNameShape | src/transformation/clean_abr.py:14-28 | a normal form is lower-case single-spaced words |
| CleanAbr.NormalizeNameFixed | src/transformation/clean_abr.py:14-28 | a name already in normal form, with no legal suffix, normalises to itself |
| CleanAbr.NormalizePtyLtd | src/transformation/clean_abr.py:14-28 | "Pty Ltd" normalises to the empty string, not to `None` |
| CleanAbr.CleanAbrSpec | src/transformation/clean_abr.py:46-60 | see the note below the table |
| CleanAbr.EmptyNormalFormKept | src/transformation/clean_abr.py:57-60 | a row named "Pty Ltd" is kept, with normalised name "" |
| CleanCommonCrawl.DeleteMarketing | src/transformation/clean_commoncrawl.py:27-30 | deleting the marketing phrases introduces no new character |
| CleanCommonCrawl.DeleteMarketingDeletes | src/transformation/clean_commoncrawl.py:27-30 | after the marketing deletions none of "introducing", "official website", "home" and "welcome" stands whole, and no legal suffix does again |
| CleanCommonCrawl.NormalizeNameDeletesWords | src/transformation/clean_commoncrawl.py:18-30 | before punctuation is deleted, none of the eight listed words stands whole in the lower-cased name |
| CleanCommonCrawl.NormalizeName | src/transformation/clean_commoncrawl.py:14-38 | `None` exactly for a missing or empty name |
| CleanCommonCrawl.NormalizeNameShape | src/transformation/clean_commoncrawl.py:14-38 | a normal form is lower-case single-spaced words |
| CleanCommonCrawl.NormalizeNameFixed | src/transformation/clean_commoncrawl.py:14-38 | a normal-form name with no legal suffix and no marketing phrase normalises to itself |
| CleanCommonCrawl.NormalizeHomePtyLtd | src/transformation/clean_commoncrawl.py:14-38 | "Home Pty Ltd" normalises to "" |
| CleanCommonCrawl.NormalizeNameNotIdempotent | src/transformation/clean_commoncrawl.py:21-38 | "Hom.e" normalises to "home", and "home" to "": punctuation is deleted after the words |
| CleanCommonCrawl.DigitRunEnd | src/transformation/clean_commoncrawl.py:50-53 | the end of the leading run of digits |
| CleanCommonCrawl.FindFrom | src/transformation/clean_commoncrawl.py:65-67 | the first position at or after `i` where the separator starts, or the length |
| CleanCommonCrawl.DigitMasksSubsumed | src/transformation/clean_commoncrawl.py:50-62 | the numeric-only and address masks are subsumed by the "starts with a digit" mask |
| CleanCommonCrawl.CleanRowOfSpec | src/transformation/clean_commoncrawl.py:46-77 | a raw row survives the masks and assignments exactly when its name is present, not blank, at least 4 long, does not start with a digit, does not end in ".au" in any case, and its normal form is not blank |
| CleanCommonCrawl.CleanDataframeSpec | src/transformation/clean_commoncrawl.py:43-82 | see the note below the table |
| CleanCommonCrawl.ShortNameKept | src/transformation/clean_commoncrawl.py:59-70 | "Ab - Cdef" passes the length mask and is then cut to "Ab", so a kept name can be shorter than 4 |
| CrawlExtractor.IsValidDomainChars | src/ingestion/commoncrawl_extractor.py:25-28 | a domain is valid exactly when it ends in '.', 'a' or 'A', then 'u' or 'U' |
| CrawlExtractor.DomainToCompanyNameShape | src/ingestion/commoncrawl_extractor.py:30-40 | the guessed name has no hyphen, no outer whitespace, is title-cased, and every character is a space or comes from the domain up to case |
| CrawlExtractor.DomainToCompanyNameCase | src/ingestion/commoncrawl_extractor.py:30-40 | the name does not depend on the case of the domain |
| CrawlExtractor.WwwComAuName | src/ingestion/commoncrawl_extractor.py:30-40 | for "www." + x + ".com.au" with x lower-case and free of '.' and 'w', the name is x with hyphens to spaces, stripped and title-cased |
| CrawlExtractor.AcmePlumbing | src/ingestion/commoncrawl_extractor.py:30-40 | "www.acme-plumbing.com.au" gives "Acme Plumbing" |
| CrawlExtractor.RowsForAppend | src/ingestion/commoncrawl_extractor.py:51-56 | the rows of two batches are the rows of each, in order |
| CrawlExtractor.InsertBatch | src/ingestion/commoncrawl_extractor.py:42-72 | returns nothing for an empty batch; otherwise one row per domain, in order, with URL "http://" + domain, the guessed name and no industry; the count is the batch size |
| CrawlExtractor.CollectedSpec | src/ingestion/commoncrawl_extractor.py:110-138 | the collected domains are, in order, exactly the lines that offer a domain no earlier line offered; they are distinct and valid, and every offered domain is among them |
| CrawlExtractor.CollectedSnoc | src/ingestion/commoncrawl_extractor.py:110-138 | one more line adds its domain exactly when it offers a valid domain not yet seen |
| CrawlExtractor.CollectedPrefix | src/ingestion/commoncrawl_extractor.py:110-138 | what is collected from a prefix of the lines is a prefix of what is collected from them all |
| CrawlExtractor.DeliveredStep | src/ingestion/commoncrawl_extractor.py:89-110 | a fetched page contributes its lines in page order |
| CrawlExtractor.DeliveredEnd | src/ingestion/commoncrawl_extractor.py:104-106 | after a page that is not found, or after the window, nothing more is read |
| CrawlExtractor.Cap | src/ingestion/commoncrawl_extractor.py:140 | the effective batch size is at least 1, and equals `batch_size` when that is positive |
| CrawlExtractor.AddStep | src/ingestion/commoncrawl_extractor.py:134-138 | recording a new domain keeps the run's bookkeeping |
| CrawlExtractor.FlushStep | src/ingestion/commoncrawl_extractor.py:140-143 | flushing writes the pending batch's rows and counts them |
| CrawlExtractor.FlushFull | src/ingestion/commoncrawl_extractor.py:140-143 | flushing a full batch leaves the state consistent, with nothing pending |
| CrawlExtractor.Skipped | src/ingestion/commoncrawl_extractor.py:112-132 | a blank, malformed, URL-less, invalid or already seen line changes nothing |
| CrawlExtractor.Fresh | src/ingestion/commoncrawl_extractor.py:131-135 | an unseen valid domain is appended to the collected ones |
| CrawlExtractor.Take | src/ingestion/commoncrawl_extractor.py:134-143 | adding a domain, and flushing a full batch, keeps the invariant for the collected domains plus the new one |
| CrawlExtractor.ReadLines | src/ingestion/commoncrawl_extractor.py:110-138 | after a page's lines, the state is that of the domains collected from all lines read so far |
| CrawlExtractor.Started | src/ingestion/commoncrawl_extractor.py:81-85 | the initial state is consistent with nothing collected |
| CrawlExtractor.ReadPages | src/ingestion/commoncrawl_extractor.py:83-155 | after the page loop, the state is that of the domains collected from every page before the first one not found |
| CrawlExtractor.FlushRemaining | src/ingestion/commoncrawl_extractor.py:156-159 | after the final flush, every collected domain is written once, in order, in batches of `Cap`, of which only the last may be smaller, and both totals count them |
| CrawlExtractor.Run | src/ingestion/commoncrawl_extractor.py:74-163 | see the note below the table |
| Frames.FilterMapPicks | src/transformation/clean_abr.py:46-57 | the masks keep exactly the rows the row function keeps, mapped by it, in order |
| Frames.KeepFirstKeys | src/transformation/clean_abr.py:60 | `drop_duplicates` loses no key |
| Frames.KeepFirstPicks | src/transformation/clean_abr.py:60 | `drop_duplicates` keeps exactly the first row of every key, in order |
| Frames.KeepFirstDistinct | src/transformation/clean_abr.py:60 | after `drop_duplicates` the keys are pairwise distinct |
| Frames.CleanedRows | src/transformation/clean_abr.py:46-60 | masks then `drop_duplicates` leave, in order, exactly the raw rows that survive the masks and come first among survivors for their key |
| Frames.CleanedKeys | src/transformation/clean_abr.py:46-60 | every key of a surviving row is in the cleaned frame, and keys are distinct |
| StrongNorm.StopWordAlt | src/matching/entity_matcher.py:40-52 | every stop word is spelt by one of the regex's alternatives |
| StrongNorm.AlternativesTable | src/matching/entity_matcher.py:40-52 | the alternatives of `_LEGAL_SUFFIX_RE`, as whole words, delete exactly the stop words |
| StrongNorm.FirstBoundary | src/matching/entity_matcher.py:50 | the first candidate end at which `\b` holds, or none when no end has it |
| StrongNorm.MatchAt | src/matching/entity_matcher.py:40-52 | a match at `i` starts and ends at word boundaries and is not empty |
| StrongNorm.PunctToSpace | src/matching/entity_matcher.py:103 | every character that is neither word nor whitespace becomes a space, and nothing else changes |
| StrongNorm.StrongNormalize | src/matching/entity_matcher.py:94-105 | "" for an empty name; otherwise single-spaced lower-case words |
| StrongNorm.StrongNormalizeDropsStopWords | src/matching/entity_matcher.py:94-105 | no legal suffix, business word or state code is left standing as a word |
| StrongNorm.StrongNormalizeIdempotent | src/matching/entity_matcher.py:94-105 | normalising twice is normalising once |
| StrongNorm.StrongNormalizeKeepsClean | src/matching/entity_matcher.py:94-105 | a lower-case single-spaced name with no stop word is unchanged |
| StrongNorm.StrongNormalizeWithoutStopWords | src/matching/entity_matcher.py:101-104 | without stop words (and without '/'), only punctuation-to-space and the collapse act |
| StrongNorm.PunctuationSeparates | src/matching/entity_matcher.py:101-104 | two non-stop words joined by punctuation other than '/' become two words separated by one space |
| StrongNorm.MatchesStopWords | src/matching/entity_matcher.py:102 | the substitution finds every stop word standing as a word |
| StrongNorm.SubLeavesNoStopWord | src/matching/entity_matcher.py:102 | after the substitution, no stop word stands as a word |
| StrongNorm.MatchesClean | src/matching/entity_matcher.py:102 | without '/', no match starts at a word that begins a suffix free of stop words |
| StrongNorm.SubKeepsClean | src/matching/entity_matcher.py:102 | on such a text the substitution changes nothing |
| StrongNorm.PtyLtdJoined | src/matching/entity_matcher.py:42 | in a text free of stop words, "pty" then "ltd" cannot end at a word boundary |
| StrongNorm.PtyLtdSeparated | src/matching/entity_matcher.py:42 | in a text free of stop words, "pty", non-word characters, then "ltd" cannot end at a boundary |
| Scoring.CompositeScore | src/matching/entity_matcher.py:108-119 | the composite is one of the three scores and at least each of them |
| Scoring.CompositeInRange | src/matching/entity_matcher.py:108-119 | scores in [0, 100] give a composite in [0, 100] |
| Scoring.Decide | src/matching/entity_matcher.py:58-60 | high exactly above 90; medium exactly in [82, 90]; review exactly in [78, 82); rejected exactly below 78 |
| Scoring.DecideMonotone | src/matching/entity_matcher.py:380-418 | a higher score never lands in a lower band |
| Scoring.NinetyIsMedium | src/matching/entity_matcher.py:380-391 | a score of exactly 90 is medium, not high |
| Scoring.ExtractOneSpec | src/matching/entity_matcher.py:361-369 | fails exactly when no choice reaches the cutoff; otherwise picks a choice at or above it, of greatest score, the first such |
| Scoring.PrefilterBoundsComposite | src/matching/entity_matcher.py:361-376 | a pair past the pre-filter has a composite at least 77 |
| Blocking.Norms | src/matching/entity_matcher.py:188-189 | the strong norms of a bucket, position by position |
| Blocking.NamesOf | src/matching/entity_matcher.py:188-191 | `_names` has the same keys, each mapped to its bucket's norms |
| Blocking.IndexStep | src/matching/entity_matcher.py:180-186 | one more row keeps the index equal to the non-empty buckets of the rows seen |
| Blocking.BuildIndexes | src/matching/entity_matcher.py:167-191 | both indexes hold exactly the non-empty buckets of the input, and the name maps are their `_names` |
| Blocking.BucketSound | src/matching/entity_matcher.py:180-186 | every bucket entry is an input row with its own non-empty strong norm, of that bucket's key |
| Blocking.BucketMultiplicity | src/matching/entity_matcher.py:180-186 | a row occurs in the buckets of its keys as often as in the input, and nowhere else |
| Blocking.Zip | src/matching/entity_matcher.py:239 | `zip` pairs by position and stops at the shorter list |
| Blocking.MergeBucket | src/matching/entity_matcher.py:239-243 | the inner loop appends the bucket's pairs whose ABN was not yet taken, and records all the bucket's ABNs |
| Blocking.GetCandidates | src/matching/entity_matcher.py:216-245 | the rows and norms are the deduplicated pairs of the prefix bucket, then the token bucket |
| Blocking.DedupSpec | src/matching/entity_matcher.py:232-243 | the dedup keeps, in order, exactly one pair per ABN not taken beforehand |
| Blocking.DedupAppend | src/matching/entity_matcher.py:235-243 | deduplicating two buckets in turn is one dedup over their concatenation |
| Blocking.CandidatesSpec | src/matching/entity_matcher.py:216-245 | the candidates keep bucket order, offer every ABN of both buckets, each once |
| Blocking.CandidatesSound | src/matching/entity_matcher.py:216-245 | over built indexes, every candidate is an input row with its own norm, sharing the query's prefix or first token |
| Blocking.SelfRetrieval | src/matching/entity_matcher.py:216-245 | a query equal to a row's non-empty strong norm is offered that row's ABN |
| Records.Take | src/matching/entity_matcher.py:305-306 | `s[:n]`: a prefix of length min(len, n) |
| Records.BuildRecord | src/matching/entity_matcher.py:296-319 | the reference row's ABN, name, type and status under the crawled URL, no industry, confidence rounded to two decimals |
| Records.BuildRecordPostcode | src/matching/entity_matcher.py:300-304 | the postcode is kept, stripped, exactly when it is four digits |
| Records.BuildRecordState | src/matching/entity_matcher.py:299-305 | the state is missing exactly when the stripped state is empty; otherwise its first three characters |
| Records.BuildRecordFitsColumns | src/matching/entity_matcher.py:297-306 | for the matcher's three methods, state, postcode and method fit their columns and the method is kept |
| Records.InsertIfAbsent | src/matching/entity_matcher.py:65-78 | afterwards the key is present, and the table is unchanged or has the row appended |
| Records.InsertKeepsKeysUnique | src/matching/entity_matcher.py:65-78 | insertion keeps `(abn, website_url)` unique |
| Records.InsertExistingKey | src/matching/entity_matcher.py:74-77 | a row whose key is present is not inserted |
| Records.InsertIdempotent | src/matching/entity_matcher.py:65-78 | inserting twice is inserting once |
| Records.InsertKeys | src/matching/entity_matcher.py:65-78 | insertion keeps every key and adds only the row's |
| Records.InsertAllAppend | src/matching/entity_matcher.py:65-78 | inserting `ws` then `vs` is inserting `ws + vs` |
| Records.InsertAllSpec | src/matching/entity_matcher.py:65-78 | after a sequence of inserts the old table is a prefix, every appended row is one of the written rows, keys stay unique, and the keys are the old ones plus the written ones |
| Records.InsertAllFirstNew | src/matching/entity_matcher.py:65-78 | the appended rows are exactly, in order, the first written row for each key that was not in the table before |
| Matcher.Assess | src/matching/entity_matcher.py:344-418 | the loop body's decision for one row equals `Classify`: skip, pre-filter failure, direct match, review or low score |
| Matcher.UnmatchedIff | src/matching/entity_matcher.py:357-369 | a row with candidates fails the pre-filter exactly when no candidate's token-set score reaches 77 |
| Matcher.DecidedSpec | src/matching/entity_matcher.py:344-418 | see the note below the table |
| AiValidator.NameLine | src/matching/ai_validator.py:37-38 | a name's line holds the name at offset 4, followed by a quote |
| AiValidator.BuildPrompt | src/matching/ai_validator.py:33-43 | the prompt: the fixed header, the two name lines at fixed offsets, and the reply format at the end |
| AiValidator.PromptDeterminesNames | src/matching/ai_validator.py:33-43 | when the first name has no double quote, the prompt determines both names |
| AiValidator.PromptCharAfterName | src/matching/ai_validator.py:37 | names without quotes of different lengths give different prompts |
| AiValidator.RemoveFencesFenceFree | src/matching/ai_validator.py:49 | removing fences leaves no three backticks in a row |
| AiValidator.RemoveFencesKeeps | src/matching/ai_validator.py:49 | text without a fence is unchanged |
| AiValidator.RemoveFencesIdempotent | src/matching/ai_validator.py:49 | removing fences twice is removing them once |
| AiValidator.NextBrace | src/matching/ai_validator.py:10 | the first brace at or after `i`, or the length |
| AiValidator.BlockFromSpec | src/matching/ai_validator.py:58-60 | the search finds a `{[^{}]*}` block, and none starts before it; or none exists |
| AiValidator.FirstBlockIsLeftmost | src/matching/ai_validator.py:58 | the fallback block is the leftmost one |
| AiValidator.CleanedFenceFree | src/matching/ai_validator.py:49 | the cleaned reply holds no fence |
| AiValidator.ExtractWholeFirst | src/matching/ai_validator.py:51-55 | when the whole cleaned reply parses, its value is used |
| AiValidator.ExtractLeftmostBlock | src/matching/ai_validator.py:57-60 | otherwise the leftmost block is decoded, or its failure is the error |
| AiValidator.ExtractNoBlock | src/matching/ai_validator.py:62 | with no parse and no block, the error is "no JSON" with the cleaned text |
| AiValidator.Clamp | src/matching/ai_validator.py:119 | the result is in [0, 1]; it is `x` inside the range, 0 below it and 1 above it |
| AiValidator.Validate | src/matching/ai_validator.py:66-134 | every path returns the prompt and a confidence in [0, 1]; a failed request gives the exception text and the fixed "LLM request failed" rejection; a reply gives its stripped text |
| AiValidator.ValidateUnparsable | src/matching/ai_validator.py:123-128 | a reply with no usable object is rejected with confidence 0 and a "Parsing failed: " reason |
| AiValidator.ValidateObject | src/matching/ai_validator.py:115-122 | an object reply gives the truthiness of `same_entity`, the clamped and rounded confidence, and `str` of the reason |
| AiValidator.StringFalseApproves | src/matching/ai_validator.py:117 | `{"same_entity": "false"}` is an approval, with confidence 0 and reason "" |
| AiValidator.MissingSameEntityRejects | src/matching/ai_validator.py:117 | a missing `same_entity` is a rejection |
| AiValidator.WholeNonObjectRejects | src/matching/ai_validator.py:52-60 | a whole reply that parses to a non-object fails, even if a block inside it would parse |
| Pipeline.Database.constructor | src/matching/entity_matcher.py:140 | the two tables start as given |
| Pipeline.Database.WriteMatch | src/matching/entity_matcher.py:195-198 | `core.company_master` takes the row if its key is absent; the log is unchanged |
| Pipeline.Database.WriteAiLog | src/matching/entity_matcher.py:205-208 | the entry is appended to `core.ai_match_log`; the master table is unchanged |
| Pipeline.RunAiJob | src/matching/entity_matcher.py:249-275 | validates the pair; unless the log write raises, logs one entry carrying the prompt, reply and verdict and returns the verdict's approval and confidence; when it raises, logs nothing and the job raises |
| Pipeline.JobLogAgrees | src/matching/entity_matcher.py:261-275 | the logged decision is the verdict, and a returned confidence is in [0, 1] |
| Pipeline.DrainSplits | src/matching/entity_matcher.py:323-326 | a drain splits the pending jobs: each is collected now or stays pending, never both |
| Pipeline.WaitingSpec | src/matching/entity_matcher.py:323-326 | the jobs left pending are exactly the pending jobs not done |
| Pipeline.ApprovedRecordsAppend | src/matching/entity_matcher.py:331-335 | the records of two job lists are those of each, in order |
| Pipeline.ApprovedCountPerm | src/matching/entity_matcher.py:331-335 | the number of approved jobs written does not depend on the order in which they are collected |
| Pipeline.CollectOne | src/matching/entity_matcher.py:325-335 | a collected job writes its `ai_validated` match exactly when it returned an approval; a raised job is skipped |
| Pipeline.Collect | src/matching/entity_matcher.py:445-456 | collecting jobs in order inserts the approved jobs' records and counts them |
| Pipeline.DrainFutures | src/matching/entity_matcher.py:321-336 | the jobs done now are collected; the rest stay pending, in order |
| Pipeline.ClassifiedOutcomes | src/matching/entity_matcher.py:344 | the outcomes recorded row by row are the outcomes of the rows |
| Pipeline.HandleRow | src/matching/entity_matcher.py:380-418 | the decision bumps its counter, writes a direct match, or submits one job that logs as it runs |
| Pipeline.BumpOne | src/matching/entity_matcher.py:344-418 | a row increments at most one of high, med, ai and rejected, and a skipped row none |
| Pipeline.TallyPartition | src/matching/entity_matcher.py:344-418 | the four counters plus the skipped rows (empty norm or no candidates) add up to the rows; the direct writes are as many as high plus med |
| Pipeline.LogsAppend | src/matching/entity_matcher.py:263-273 | the log rows of two job lists are those of each, in order |
| Pipeline.AccountedDrain | src/matching/entity_matcher.py:421-422 | a drain keeps every job collected or pending exactly once, and the writes the direct ones plus the approved collected ones |
| Pipeline.AccountedFinal | src/matching/entity_matcher.py:445-456 | the final drain collects all pending jobs |
| Pipeline.RowProgress | src/matching/entity_matcher.py:344-418 | one row's outcome, counter, job and write extend the loop invariant |
| Pipeline.ProcessRow | src/matching/entity_matcher.py:345-418 | one row is assessed and handled, keeping the loop invariant |
| Pipeline.DrainStep | src/matching/entity_matcher.py:420-422 | an in-loop drain moves the done jobs from pending to collected, keeping the invariant |
| Pipeline.Step | src/matching/entity_matcher.py:344-422 | one pass of the loop, the row's handling and then the drain check, keeps the invariant |
| Pipeline.MainLoop | src/matching/entity_matcher.py:340-422 | after the loop, every row is processed and the invariant holds |
| Pipeline.FuzzyMatch | src/matching/entity_matcher.py:279-473 | see the note below the table |

Notes for the rows that say "see the note below the table":

- **CleanAbr.CleanAbrSpec** (the frame written to `staging.abr_clean`):
  - The rows kept are, in input order, exactly the rows with a present, non-blank name and status "ACT" that come first for their ABN.
  - Each row keeps its ABN and other columns.
  - Its name is the raw name stripped and title-cased, and is non-blank and title-cased.
  - Its normalised name is present and is the normal form of that name.
  - ABNs are unique, and every ABN of a surviving row appears.
- **CleanCommonCrawl.CleanDataframeSpec** (the cleaned crawl frame):
  - The rows kept are, in input order, exactly the surviving rows whose normalised name no earlier surviving row has.
  - Each keeps its URL and industry.
  - Its name is the cleaned name, title-cased.
  - Its normalised name is non-empty.
  - The normalised names are unique and all appear.
- **CrawlExtractor.Run**:
  - Every distinct valid domain of the lines read is written once, in the order first seen, as `insert_batch`'s row.
  - Both totals count these domains.
  - The batches are non-empty and of size `Cap`, except that the last may be smaller.
- **Matcher.DecidedSpec** (a row that reaches the decision chain, over indexes built from the register):
  - It was compared with a register row that shares its prefix or its first token.
  - The composite score of that pair is at least 77.
  - A direct match has the band of that score (at least 82), the row's ABN, the crawled URL, the band's method, and the score rounded as its confidence.
  - A review has a score in [78, 82).
  - A low score is below 78.
- **Pipeline.FuzzyMatch**:
  - The indexes are those built from the register.
  - The summary counts every row, the matches written, and the outcomes of each kind.
  - Every submitted job is collected exactly once.
  - The matches written are the direct ones plus the approved jobs' ones, inserted with insert-if-absent.
  - The log holds one row per job whose log write did not raise.
  - High, med, ai and rejected plus the skipped rows (empty norm or no candidates, in no counter) add up to `total_proc`; the skipped rows are a real gap in the four counters.
  - `total_written` is high plus med plus the number of approved jobs whose result did not raise, each written as `ai_validated` at confidence ×100.

## Left out

- Network I/O becomes inputs:
  - the index request, `status_code`, `iter_lines`, `urlparse` and the connection errors (commoncrawl_extractor.py:96-155) become a sequence of `Page`s. A connection drop mid-page is a `Fetched` page cut short, which is what, per the source, happens to the lines read before the drop.
  - The POST to the model server (ai_validator.py:85-111) becomes a `Reply`.
- Database I/O is left out: `read_sql`, `to_sql`, the `DELETE FROM` before each cleaner's insert and `load_data`'s `IS NOT NULL` filter. Each cleaner's table is modelled as the frame it writes, and the matcher reads `CcRow`/`AbrRow` sequences.
- `print`, `time.sleep`, the `debug` output and the progress report every 1000 rows (entity_matcher.py:424-441) are left out: they change no table and no returned value.
- Concurrency is left out. A job's log is written when the job is submitted, and which jobs a drain finds done is an input schedule. The final drain collects in submission order, not `as_completed` order. The order of the `ai_validated` inserts therefore follows submission. This matters only when two jobs would insert the same `(abn, website_url)`.
- `FuzzyMatch` requires `ai_workers >= 1`, because `ThreadPoolExecutor(max_workers=0)` raises before the loop starts.
- The rapidfuzz scorers and `extractOne` are a function-valued `Scorers` parameter. Their internals (ratios, tokenisation, rapidfuzz's own preprocessing) are not modelled. The score is a real number, not a float.
- `json.loads`, `float()` of a string, `str()` of a non-string value and the text of an exception are parameters of `Env`. A JSON value that is not a dictionary fails at `.get`. Any other exception inside the parse step is one of `ParseError`'s cases.
- Floating point is modelled as reals. `round` is the exact decimal rule on reals, not on the nearest binary float.
- Text is ASCII. Non-ASCII characters are neither word characters, whitespace nor cased, so Python's Unicode `lower`, `title`, `\w` and `\s` are approximated.
- CrawlExtractor.DomainToCompanyNameShape: states what the name is made of, not the exact string for every domain. `str.replace` can create new occurrences, so "wwwww.w." gives "www.". `WwwComAuName` gives the exact name for the common shape.
- Unlike the crawl cleaner, the register cleaner keeps a row whose normalised name is "" (see `EmptyNormalFormKept`). The model keeps it as the source does; this is behaviour, not an omission.
- The cleaners' `__main__` blocks, the matcher's `run`/`load_data` and the CLI entry points are left out. They only wire I/O.
- The thresholds follow the constants in entity_matcher.py:58-60 (90, 82, 78), not the thresholds in the module's docstring (85 and 78–84).
