# Extractive summariser and document advisor, modelled in Dafny

The modelled program is the text-analysis core of a small document service. It:

- cuts a document into sentences and words;
- builds a table of how often each meaningful word occurs;
- scores the sentences with that table and keeps the best of them, in document order, as an
  extractive summary;
- returns the most frequent words as keywords;
- separately, runs a fixed battery of heuristic checks over the raw text and returns
  improvement suggestions.

Everything here is pure functions over strings, sequences and exact numbers. Each stage
carries a contract that says what its result means, and lemmas tie it to an independent
reading of the same thing.

## Modules

- `chars.dfy` (`Chars`): the character classes.
  - Whitespace is exactly Python's `str.isspace()` set.
  - The token class is `[A-Za-z0-9']`, and `\w` is read in ASCII.
  - Lower-casing is ASCII.
- `runs.dfy` (`MaximalRuns`): the maximal runs of one character class, left to right.
  - This is what both `re.findall("[...]+")` and `str.split()` return.
  - Characterised positionally by `RunsMembers`.
- `tokenizer.dfy` (`Tokenizer`): the text pipeline.
  - Whitespace normalisation: `re.sub(r'\s+', ' ', text).strip()`.
  - The sentence split, the newline fallback and the final strip-and-filter.
  - Word tokenisation.
- `frequency.dfy` (`Frequency`): the stop-word list and the counting loop.
  - A `Counter` is a sequence of `(word, value)` entries in first-seen order.
  - Normalisation by the largest count, computed as an exact rational.
- `ranking.dfy` (`Ranking`): the stable descending order on positions (`Before`).
  - It is used both by `scores.sort(..., reverse=True)` and by `Counter.most_common`.
  - Also holds ascending `sorted()`.
- `summarizer.dfy` (`Summarizer`): sentence scores, `pick_count`, sentence selection,
  keywords and `summarize_text`.
- `patterns.dfy` (`Patterns`): the regular-expression pieces of the advisor.
  - Whole-word matching with ASCII case folding.
  - `re.findall` as a left-to-right scan that resumes after each match.
- `advisor.dfy` (`Advisor`): the checks of `improvement_suggestions` and the assembly of
  the suggestion list and its message texts.

## Behaviour worth knowing

- **Newline fallback.** The newline re-split (summarizer.py:22-23) never splits anything,
  because line 18 has already replaced every newline with a space
  (`Tokenizer.FallbackInert`).
- **Jargon counting.** The jargon check (summarizer.py:99-100) counts distinct
  *spellings* of matches, which is case-sensitive, not distinct keywords. So
  "Leverage … leverage" is two terms and is enough for the suggestion
  (`Advisor.JargonBySpelling`).
- **Passive voice.** The passive pattern (summarizer.py:103) needs whitespace between the
  verb and the participle. The participle needs at least three word characters ending in
  "ed", so a bare "ed" does not match (`Advisor.PassiveParts`, `Advisor.PassiveOfParts`).
- **Short documents.** Any text under 500 characters gets the "quite short" suggestion
  (summarizer.py:84-85). So a 300-character document never gets the closing message
  alone (`Advisor.Advise`).
- **Unknown length modes.** A mode other than short, medium and long keeps sentences by
  the medium rule (summarizer.py:59). It asks for 5 keywords, not 6 (summarizer.py:76)
  (`Summarizer.UnknownMode`).

## Model

| member | source | states |
|---|---|---|
| MaximalRuns.RunsMembers | summarizer.py:26-27 | The runs listed are exactly the maximal runs of the class: a non-empty stretch of class characters with no class character on either side. |
| MaximalRuns.RunsSplit | summarizer.py:27 | A character outside the class separates: the runs of `a + [c] + b` are those of `a` followed by those of `b`. |
| MaximalRuns.RunsKeep | summarizer.py:27 | A property of every character of the text holds of every character of every run. |
| Tokenizer.Normalize | summarizer.py:18 | The normalised text has no whitespace runs and no leading or trailing whitespace. It equals `' '.join(text.split())`, so it keeps every word in order. It is empty exactly for blank text. |
| Tokenizer.CollapseKeepsFields | summarizer.py:18 | Replacing each whitespace run with one space keeps the whitespace-separated words unchanged. |
| Tokenizer.StripKeepsFields | summarizer.py:18 | Stripping keeps the whitespace-separated words unchanged. |
| Tokenizer.NormalIsJoinOfFields | summarizer.py:18 | Normalised text is its own words joined by single spaces. |
| Tokenizer.SplitNormal | summarizer.py:15-21 | On normalised text `SplitFrom`, the `SENT_SPLIT` split, gives non-empty normalised pieces. Joined with single spaces they rebuild the text. Consecutive pieces meet at a terminal mark followed by an upper-case letter or digit, and no piece contains a split point. |
| Tokenizer.FallbackInert | summarizer.py:22-23 | When the pattern split yields one piece, the newline re-split of the normalised text yields that same piece. |
| Tokenizer.SplitOfNormalized | summarizer.py:21-24 | Neither the newline fallback nor stripping and dropping empty pieces changes the pattern split of normalised text. |
| Tokenizer.TidyOfStripped | summarizer.py:24 | Stripping and filtering pieces that are already non-empty and stripped returns them unchanged. |
| Tokenizer.SentenceTokenize | summarizer.py:17-24 | The result is empty exactly for blank text. Otherwise every sentence is non-empty normalised text, and joined with single spaces they give back the normalised text. Consecutive sentences meet at a boundary, and none contains one. |
| Tokenizer.WordTokenize | summarizer.py:26-27 | Every token is non-empty and made only of lower-case letters, digits and apostrophes. |
| Tokenizer.WordTokenizeMaximal | summarizer.py:26-27 | The tokens are exactly the maximal runs of `[A-Za-z0-9']` in the lower-cased sentence. |
| Tokenizer.WordTokenizeSplit | summarizer.py:27 | A character outside the token class separates the tokens of the text before it from those after it. |
| Tokenizer.WordTokenizeRun | summarizer.py:27 | A non-empty run of token characters is a single token, lower-cased. |
| Frequency.Bump | summarizer.py:34 | `counts[w] += 1` raises the entry of `w` by one and leaves every other entry alone. A word not yet counted is appended with count 1. |
| Frequency.Tally | summarizer.py:30-34 | The counts are the count table of the words under the filter. It holds each admitted word exactly once, with its number of occurrences, and the entries are ordered by first occurrence. |
| Frequency.TallyStep | summarizer.py:31-34 | One iteration of the counting loop keeps the table the count table of the words read so far. |
| Frequency.Normalise | summarizer.py:35-40 | Dividing by the largest count keeps the words, puts every value in (0, 1], gives some entry exactly 1, and leaves an empty table empty. |
| Frequency.RatioPair | summarizer.py:39 | Two counts divided by the same maximum stay proportional and compare as the counts do. |
| Frequency.BuildFrequencyTable | summarizer.py:29-40 | The table holds exactly the words of the sentences that are not stop words and are longer than 2 characters, each once and in first-seen order. Every value is in (0, 1], and some value is 1 unless the table is empty. |
| Frequency.StopwordsExcluded | summarizer.py:4-13 | No word of the stopword list enters the frequency table, whatever the sentences. |
| Frequency.FrequencyFollowsCounts | summarizer.py:29-40 | Table values are proportional to the words' occurrence counts and compare as they do. A word's value is 1 exactly when no word occurs more often. |
| Frequency.Lookup | summarizer.py:49 | `freq_table.get(w, 0.0)` is 0 for a word outside the table; otherwise it is the value of the first entry for that word. |
| Frequency.LookupAt | summarizer.py:49 | In a table without repeated words, looking up an entry's word gives that entry's value. |
| Ranking.Rank | summarizer.py:68 | Every position appears exactly once, ordered by descending key. Equal keys keep their original order, as a stable sort does. |
| Ranking.RankIsUnique | summarizer.py:68 | Any arrangement of all positions in that order is the ranking itself. |
| Ranking.TopK | summarizer.py:71 | The first `min(k, n)` ranked positions are returned, each ahead of every position left out. |
| Ranking.SortAscending | summarizer.py:71 | `sorted()` of distinct positions keeps the same positions, strictly increasing. |
| Summarizer.SumValues | summarizer.py:49 | With table values in [0, 1], the sum over the words lies between 0 and the word count. It is 0 when no word is in the table. |
| Summarizer.ScoreSentences | summarizer.py:42-52 | There is one `(i, score)` pair per sentence, in index order. A sentence without words scores exactly 0, with no lead bonus. Otherwise the score lies between the lead bonus and the bonus plus words over penalty, and equals the bonus when no word is in the table. |
| Summarizer.ScoreFollowsFrequency | summarizer.py:49-51 | Of two sentences with the same word count on the same side of the lead cut-off, the one with the larger sum of table values scores higher, and the converse holds. |
| Summarizer.PickCount | summarizer.py:54-59 | The count is `max(3, n // 12)` for short, `max(8, n // 5)` for long, and `max(5, n // 8)` for any other mode, so the `or` fallback never changes the result. |
| Summarizer.PickCountMonotone | summarizer.py:54-59 | A longer document never keeps fewer sentences. |
| Summarizer.PickCountAtMostTotal | summarizer.py:54-59 | A document of at least 8 sentences never keeps more sentences than it has. |
| Summarizer.ModesOrdered | summarizer.py:54-76 | Longer modes keep at least as many sentences (short, then medium, then long). They also report strictly more keywords: 5, 6 and 8 from `KeywordCount`. |
| Summarizer.UnknownMode | summarizer.py:54-76 | A mode other than short, medium and long keeps as many sentences as medium. Yet `KeywordCount` gives it only the 5 keywords of short, fewer than medium's 6. |
| Summarizer.TopIndices | summarizer.py:68-71 | `min(k, n)` positions are kept in strictly increasing order. Each ranks ahead of every dropped position by score, with ties going to the earlier sentence. |
| Summarizer.TopIndicesAll | summarizer.py:70-71 | When at least as many sentences are asked for as exist, every position is kept. |
| Summarizer.Selection | summarizer.py:66-71 | The kept sentences number `min(pick_count, n)` and are in document order. Each outranks every dropped sentence under the document's own frequency table. |
| Summarizer.Keywords | summarizer.py:77 | `min(n, table size)` table words are returned, largest value first, with ties in table order. Each ranks ahead of every table word left out. |
| Summarizer.KeywordsByValue | summarizer.py:77 | No keyword repeats, keyword values never increase along the list, and no omitted table word has a larger value than a listed one. |
| Summarizer.KeywordsQualify | summarizer.py:77 | Every keyword is a word of the text that is not a stop word and is longer than 2 characters. |
| Summarizer.SummarizeText | summarizer.py:61-78 | Blank text gives `("", [])`, and nothing else does. Otherwise the summary is the selected sentences joined by single spaces and is never empty. It is the whole normalised text when no more sentences exist than are kept. The keywords number `min(top_k, table size)`, with `top_k` 8, 6 or 5 by mode. |
| Summarizer.AllKept | summarizer.py:70-74 | When the document has no more sentences than the count kept, the summary keeps every sentence. |
| Patterns.FirstWholeWord | summarizer.py:89 | The alternation of whole words reports a match length exactly when some alternative matches there as a whole word. |
| Patterns.WholeWordIsRun | summarizer.py:89 | A whole-word match of a lower-case keyword is a maximal run of word characters. |
| Patterns.RunIsWholeWord | summarizer.py:89 | A maximal run of word characters that lower-cases to a keyword is a whole-word match of it. |
| Patterns.FindAll | summarizer.py:99 | The scan returns increasing match starts, each a position where the pattern matches. |
| Patterns.FindAllComplete | summarizer.py:99 | When no match starts inside another, the scan lists every position where the pattern matches. |
| Patterns.FindAllCounts | summarizer.py:103-104 | When no match starts inside another, the number of matches listed is the number of positions where the pattern matches. |
| Advisor.HeadingByWords | summarizer.py:89-90 | `HasHeading`, the heading search, succeeds exactly when some word of the text (a maximal run of word characters) is a heading keyword, ignoring case. |
| Advisor.JargonShape | summarizer.py:99 | Jargon matches end inside the text and never start inside one another. |
| Advisor.JargonMatches | summarizer.py:99 | The matches are exactly the words of the text (maximal runs of word characters) that are jargon keywords ignoring case. They come in reading order, each occurrence once, spelled as in the text. |
| Advisor.JargonByWords | summarizer.py:99-100 | The set of jargon spellings is exactly the set of words of the text that are jargon keywords, ignoring case, with each word's case kept. |
| Advisor.JargonBySpelling | summarizer.py:99-101 | Two matches spelled differently, even if they differ only in case, are enough for the jargon suggestion. |
| Advisor.PassiveParts | summarizer.py:103 | A passive match is a be-verb at a word start, a non-empty whitespace run, then a whole word of at least 3 word characters ending in "ed". |
| Advisor.PassiveOfParts | summarizer.py:103 | Conversely, a be-verb at a word start, a non-empty whitespace run, and a whole word of at least 3 word characters ending in "ed" (any case) form a passive match that covers all of them. |
| Advisor.PassiveFirst | summarizer.py:103 | The verb alternation reports a match length exactly when some be-verb gives a passive match there, and then the length is that verb's match. |
| Advisor.PassiveShape | summarizer.py:103 | Passive matches end inside the text and never start inside one another. |
| Advisor.PassiveCount | summarizer.py:103-104 | The number of passive hits is the number of positions where the passive pattern matches. |
| Advisor.LineStart | summarizer.py:96 | The start of the line holding a position is a `^` position in multi-line mode, with no newline between it and that position. |
| Advisor.BulletByLines | summarizer.py:96-97 | `HasBullet`, the multi-line bullet search, succeeds exactly when, on some line, the first non-whitespace character is a bullet followed by whitespace. |
| Advisor.CountLong | summarizer.py:92-93 | The count is the number of positions holding a sentence of more than 35 words. So it is positive exactly when some sentence is that long, and never exceeds the number of sentences. |
| Advisor.Filter | summarizer.py:84-105 | The candidates whose check fires are kept, and nothing else, in their original order. |
| Advisor.Checks | summarizer.py:84-105 | A suggestion is produced exactly when its check fires, in the fixed order of the checks. |
| Advisor.InOrderUnique | summarizer.py:82-109 | Two suggestion lists in check order with the same members are equal, so membership determines the list. |
| Advisor.Assemble | summarizer.py:82-109 | The list is never empty and is in check order, each suggestion at most once. Each suggestion appears exactly when its threshold is crossed. The closing message appears exactly when no check fires, and then alone. |
| Advisor.ShortBareDocument | summarizer.py:84-97 | A short document without headings or bullets and with nothing else to report gets exactly the short, headings and bullets suggestions, in that order. |
| Advisor.QuietDocument | summarizer.py:107-108 | A document of 500 to 20000 characters with a heading, a bullet and nothing else to report gets only the closing message. |
| Advisor.NatToString | summarizer.py:94 | `str(n)` is a non-empty string of digits with no leading zero. |
| Advisor.DecimalRoundTrip | summarizer.py:94 | Reading back the digits of `str(n)` gives `n`. |
| Advisor.MessageInjective | summarizer.py:85-108 | `Message`, the text of each suggestion, never gives two suggestions the same text, including long-sentence messages with different counts. |
| Advisor.MessagePresent | summarizer.py:85-108 | A message is in the list of texts exactly when its suggestion is in the list of suggestions. |
| Advisor.Advise | summarizer.py:80-109 | Each suggestion appears exactly when its check on the raw text fires. Never both the short and the long suggestion appear. The closing one appears exactly when it is the whole list. |
| Advisor.ImprovementSuggestions | summarizer.py:80-109 | The texts are the messages of the suggestions, one per suggestion and in the same order, so a message is present exactly when its suggestion is. The result is never empty, and the closing message appears only on its own. |

## Left out

- The web layer (`app.py`) is not part of this model. It covers routing, uploads, file
  saving and JSON responses; its only logic, normalising the length mode, happens before
  the core is called.
- Text extraction (`extractors.py`) is not part of this model. It covers PDF parsing, OCR
  and environment probing, all of which are foreign library calls.
- Summarizer.ScoreSentences: `len(words) ** 0.7` is floating-point, so it enters as a
  parameter `penalty` that is positive on positive word counts.
  - Sums and the 0.12 lead bonus are exact reals, so floating-point rounding of the scores
    is not modelled.
  - The selection properties hold for any such penalty.
- Frequency.BuildFrequencyTable: table values are exact rationals `count / max`, not
  floating-point numbers.
- Chars.Lower: `str.lower()` is ASCII lower-casing. Unicode case mappings of non-ASCII
  letters are not modelled.
- Advisor.HasHeading: `\b`, `\w` and `re.IGNORECASE` are read in ASCII, as are the jargon
  and passive patterns. Unicode word characters are not modelled.
- Advisor.Advise: the bullet character class in the source contains a mis-encoded glyph,
  so bullet glyphs beyond `-` and `*` are a parameter `glyph`. No code point is pinned.
- Ranking.Rank: `Counter.most_common` and `heapq.nlargest` are modelled by their observable
  result, a stable descending order. The heap is not modelled.
- Performance and the sizes of Python's integers and strings are not modelled; Dafny's
  integers and sequences are unbounded.
