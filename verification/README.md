# job_bot decision core in Dafny

`job_bot.py` scrapes three job boards (Indeed, Naukri, Foundit) once a day,
keeps the entry-level postings that ask for Python and SQL plus one
data-science skill, drops duplicates, ranks Hyderabad and office-based work
first and mails the top 60 as an HTML table. This project models the part
of that run that decides what lands in the mail:

- **Text** (`text.dfy`): ASCII lowering, `str.isspace()`, Python's `in` for
  strings, with an executable search proved equal to the "occurs at some
  index" definition.
- **Normalize** (`normalize.dfy`): `clean`, i.e. `re.sub(r"\s+", " ", text or "").strip()`,
  proved equal to `" ".join((text or "").split())`.
- **Patterns** (`patterns.dfy`): the two regular expressions of
  `looks_fresher`. Each has a declarative matcher, with every backtracking
  choice left open as an existential, and a greedy scanner. The two are
  proved equal.
- **Classifier** (`classifier.dfy`): `looks_fresher`, `has_required_skills`
  and `prefer_hyd_offline`, together with the keyword lists they use.
- **Postings** (`postings.dfy`): the posting record, a scraped result card,
  and the admission test each fetcher applies before it appends a posting.
- **Dedup** (`dedup.dfy`): the seen-set loop of `collect_all`, keyed by
  (lowered title, lowered company, link). It is a method, proved equal to a
  "first occurrence of each identity" reference.
- **SortKeys**, **StableSort**, **Ranking** (`sortkeys.dfy`,
  `stablesort.dfy`, `ranking.dfy`):
  - the sort key (-preference, city index or 99, source), with Python's
    tuple and string ordering;
  - a stable insertion sort;
  - a proof that any sorted, stable rearrangement equals it, which makes it
    the list Python's `list.sort` produces.
- **Pipeline** (`pipeline.dfy`): concatenation in fetcher order, dedup,
  rank, cap to 60, and the whole run from cards to digest.

## Model

| member | source | states |
|---|---|---|
| Text.Lower | job_bot.py:20 | lowering keeps the length and maps each character on its own (ASCII A-Z to a-z, every other character unchanged) |
| Text.LowerWithoutUpper | job_bot.py:20 | a text with no upper-case letter is its own lower-case form |
| Text.LowerAppend | job_bot.py:34 | lowering the joined text is joining the lowered parts |
| Text.SearchFrom | job_bot.py:21 | the scan from `from` answers true exactly when the key occurs at some index at or after `from` |
| Text.In | job_bot.py:21 | `k in t` is true exactly when `k` occurs at some index of `t` |
| Text.AnyIn | job_bot.py:21 | `any(k in t for k in keys)` is true exactly when some key occurs in `t` |
| Text.AllIn | job_bot.py:31 | `all(k in t for k in keys)` is true exactly when every key occurs in `t` |
| Text.ContainsWithin | job_bot.py:59 | a key found in one field is still found once other fields are joined around it |
| Text.ContainsAnyWithin | job_bot.py:34 | likewise for "some key of a list occurs" |
| Text.AbsentCharBlocks | job_bot.py:21 | a key holding a character the text lacks is not in the text |
| Normalize.DropSpaces | job_bot.py:41 | the left part of `.strip()` removes exactly the leading whitespace and leaves a suffix that is empty or starts with non-whitespace |
| Normalize.DropTrailingSpaces | job_bot.py:41 | the right part of `.strip()` removes exactly the trailing whitespace and leaves a prefix that is empty or ends with non-whitespace |
| Normalize.Collapse | job_bot.py:41 | `re.sub(r"\s+", " ", s)` leaves no two whitespace characters adjacent, keeps the non-whitespace characters in order, and keeps whether each end is whitespace |
| Normalize.CollapseKeepsWords | job_bot.py:41 | collapsing whitespace runs keeps `s.split()`: no two words are glued together and none is split |
| Normalize.CollapseRunStep | job_bot.py:41 | a leading whitespace run collapses to one space in front of the collapsed rest, keeping single spacing, the ends and the non-whitespace characters |
| Normalize.CollapseCharStep | job_bot.py:41 | a leading non-whitespace character is kept in front of the collapsed rest, with the same guarantees |
| Normalize.DropSpacesNonSpace | job_bot.py:41 | dropping leading whitespace keeps every non-whitespace character |
| Normalize.Strip | job_bot.py:41 | `.strip()` returns a slice of its input with only whitespace around it and no whitespace at either end of the slice |
| Normalize.StripKeepsWords | job_bot.py:41 | `.strip()` keeps `s.split()` |
| Normalize.WordsDropSpaces | job_bot.py:41 | leading whitespace does not change `s.split()` |
| Normalize.WordsDropTrailingSpaces | job_bot.py:41 | trailing whitespace does not change `s.split()` |
| Normalize.WordsAppendSpaces | job_bot.py:41 | appending whitespace does not change `s.split()` |
| Normalize.WordsOfSpaces | job_bot.py:41 | a whitespace-only string has no words |
| Normalize.Clean | job_bot.py:40-41 | `clean` returns a normalised string (single spaces, no space at either end) with exactly the words, and so the non-whitespace characters, of `text or ""`, in order |
| Normalize.CleanIsJoinOfWords | job_bot.py:40-41 | `clean(text) == " ".join((text or "").split())` |
| Normalize.SingleSpacedIsJoin | job_bot.py:41 | a single-spaced string with no trailing whitespace is its words joined by single spaces, after one leading space if it starts with whitespace |
| Normalize.JoinWordsGlue | job_bot.py:41 | putting a character in front of the first word puts it in front of the joined string |
| Normalize.CleanMissing | job_bot.py:41 | `clean(None)` and `clean("")` are both the empty string |
| Normalize.NonSpaceAppend | job_bot.py:41 | the non-whitespace characters of a concatenation are those of each part, in order |
| Normalize.CollapseSingleSpaced | job_bot.py:41 | collapsing an already single-spaced string changes nothing |
| Normalize.StripKeepsShape | job_bot.py:41 | stripping a single-spaced string keeps it single-spaced and keeps its non-whitespace characters |
| Normalize.StripTrimmed | job_bot.py:41 | stripping a string with no whitespace at either end changes nothing |
| Normalize.CleanNormalized | job_bot.py:41 | cleaning a normalised string returns it unchanged |
| Normalize.CleanIdempotent | job_bot.py:40-41 | `clean(clean(x)) == clean(x)` |
| Patterns.SkipSpaces | job_bot.py:23 | the greedy `\s*` stops at the end of the longest whitespace run |
| Patterns.SpacesThenYearsIff | job_bot.py:23 | `\s*years?\b` matches from `k` for some run length exactly when it matches after the greedy run |
| Patterns.SpacesThenYrsIff | job_bot.py:23 | the same for `\s*yrs\b` |
| Patterns.SeniorityScanAtIff | job_bot.py:23 | the greedy scan at index `i` agrees with the seniority pattern matching at `i` by either alternative, with or without `+` |
| Patterns.PlusBlocksYears | job_bot.py:23 | right at a `+`, `\s*years?\b` cannot match |
| Patterns.SearchSeniority | job_bot.py:23 | the search from `i` is true exactly when the seniority pattern matches at some index at or after `i` |
| Patterns.MatchesSeniority | job_bot.py:23 | `re.search(r"\b([2-9]\+?\s*years?\|[2-9]\s*yrs)\b", t)` finds a match exactly when the pattern matches at some index |
| Patterns.SpacesThenUnitIff | job_bot.py:27 | `\s*(years?\|yrs?)\b` matches from `k` exactly when it matches after the greedy run |
| Patterns.SpacesThenOneIff | job_bot.py:27 | the same for `\s*1\s*(years?\|yrs?)\b` |
| Patterns.SpacesThenDashIff | job_bot.py:27 | the same for `\s*-\s*1\s*(years?\|yrs?)\b` |
| Patterns.ZeroToOneScanAtIff | job_bot.py:27 | the greedy scan at `i` agrees with the zero-to-one pattern matching at `i` |
| Patterns.SearchZeroToOne | job_bot.py:27 | the search from `i` is true exactly when the zero-to-one pattern matches at some index at or after `i` |
| Patterns.MatchesZeroToOne | job_bot.py:27 | `re.search(r"\b0\s*-\s*1\s*(years?\|yrs?)\b", t)` finds a match exactly when the pattern matches at some index |
| Classifier.LooksFresher | job_bot.py:19-27 | if some entry-level key occurs in the lowered text, the result is true exactly when the seniority pattern does not match; otherwise it is true exactly when the zero-to-one pattern matches |
| Classifier.HasRequiredSkills | job_bot.py:29-31 | true exactly when "python" and "sql" both occur in the lowered text and at least one of the four data-science skills does |
| Classifier.PreferHydOffline | job_bot.py:33-38 | the score is at most 2 and counts one for "hyderabad" in the joined, lowered fields and one for any office keyword there |
| Classifier.RequiredSkillsSpelledOut | job_bot.py:29-31 | the skill test written out skill by skill: python, sql, and one of machine learning, pandas, numpy, visual studio |
| Classifier.NoSkillsInEmpty | job_bot.py:29-31 | an empty text has none of the required skills |
| Classifier.SkillsSurviveMoreText | job_bot.py:59-60 | text joined around a posting that has the skills still has them |
| Classifier.MissingSkillSupplied | job_bot.py:29-31 | a text with a data-science skill passes once text holding whichever of python and sql it lacks is appended |
| Classifier.EmptyIsNotFresher | job_bot.py:19-27 | the empty text is not entry level: no key and no "0-1 years" range |
| Classifier.ThreeYearsIsSenior | job_bot.py:23 | " 3 years experience" appended to any text matches the seniority pattern |
| Classifier.StatedSeniorityVetoes | job_bot.py:21-24 | a keyword match is overturned once the text also states "3 years" |
| Classifier.NoDigitNoSeniority | job_bot.py:23 | the seniority pattern cannot start inside a stretch with no digit from 2 to 9 |
| Classifier.DigitAfterNotSenior | job_bot.py:23 | a digit right after the candidate digit rules out a match there (so "20 years" is not matched at the '2') |
| Classifier.PlusWithoutYearsNotSenior | job_bot.py:23 | after `2+` the pattern needs "year" or "years"; "yrs" there does not match |
| Classifier.TwentyYearsNotSenior | job_bot.py:23 | the seniority pattern finds nothing in "20 years" |
| Classifier.TwoPlusYrsNotSenior | job_bot.py:23 | the seniority pattern finds nothing in "fresher 2+ yrs" |
| Classifier.TwentyYearsLooksFresher | job_bot.py:15-25 | "20 years" passes as entry level: it holds the key "0 year", and the veto cannot start at the '2' because a digit follows it |
| Classifier.TwoPlusYrsNotVetoed | job_bot.py:23 | "fresher 2+ yrs" is kept: the veto accepts '+' only before "years" |
| Classifier.NoKeyInRangeExample | job_bot.py:15 | none of the entry-level keys occurs in "5 years, 0-1 yrs" |
| Classifier.RangeExampleMatches | job_bot.py:27 | the zero-to-one pattern matches "5 years, 0-1 yrs" at the '0' |
| Classifier.FallbackIgnoresSeniority | job_bot.py:26-27 | without a key, "5 years, 0-1 yrs" passes: the fallback does not consult the seniority veto |
| Postings.Admit | job_bot.py:59-60 | a posting is appended exactly when its lowered joined text has an entry-level key and no stated 2-9 year seniority (or, without a key, a 0-1 year range), has both "python" and "sql", and has one of the four data-science skills |
| Postings.FromCardCleans | job_bot.py:54-58 | a posting built from a card carries the fetcher's source name and the card's link, and every cleaned field is normalised |
| Postings.Filter | job_bot.py:53-64 | the append-if loop keeps only elements that pass the test, never more than it was given, and invents none |
| Postings.FilterKeepsAll | job_bot.py:53-64 | every element that passes the test is kept |
| Postings.FilterAppend | job_bot.py:53-64 | the loop over a concatenation yields the results for each part, in order, so order and repetitions are kept |
| Postings.FilterOne | job_bot.py:60-64 | one loop step appends the element exactly when it passes the test |
| Postings.Admitted | job_bot.py:59-64 | the fetcher keeps only postings whose joined text passes both classifiers, never more postings than it was given, and invents none |
| Postings.AdmittedKeepsAll | job_bot.py:59-64 | every input posting that passes the admission test is kept |
| Postings.AdmittedAppend | job_bot.py:53-64 | the admitted postings of a concatenation are those of each part, in order |
| Postings.AdmittedOne | job_bot.py:60-64 | a single posting is appended exactly when it passes the admission test |
| Postings.MapAppend | job_bot.py:53-58 | building from a concatenation of cards builds from each part, in order |
| Postings.Built | job_bot.py:53-58 | one posting per card, in card order, each stamped with the fetcher's source and carrying its card's link |
| Postings.BuiltAppend | job_bot.py:53-58 | the postings built from two runs of cards are those of each run, in order |
| Postings.Fetched | job_bot.py:53-64 | a fetcher returns no more postings than it had cards, each of which passes the admission test |
| Postings.FetchedAppend | job_bot.py:53-64 | the card loop: a longer run of cards appends exactly what the extra cards yield |
| Postings.FetchedOne | job_bot.py:53-64 | one card yields its cleaned posting exactly when that posting passes the admission test, and nothing otherwise |
| Postings.BuiltAt | job_bot.py:53-58 | the `i`-th built posting is the `i`-th card cleaned and stamped with the source |
| Postings.FetchedFromCards | job_bot.py:53-64 | every fetched posting passes the admission test and comes from one of the cards, stamped with the source |
| Dedup.DedupLoop | job_bot.py:127-135 | the seen-set loop returns the first posting of each (lowered title, lowered company, link) identity, in input order |
| Dedup.FirstOccurrenceAt | job_bot.py:130-135 | each kept posting is the first of its identity among the postings the loop has seen |
| Dedup.FirstOccurrencesOrigin | job_bot.py:130-135 | after any number of loop steps, every kept posting is the first of its identity among the postings seen so far |
| Dedup.Unique | job_bot.py:127-135 | the deduplicated list is no longer than the input and no two of its postings share an identity |
| Dedup.DedupKeepsEveryIdentity | job_bot.py:127-135 | every identity in the input is represented in the result |
| Dedup.DedupKeepsFirst | job_bot.py:130-135 | every kept posting is the first of its identity in the input |
| Dedup.DedupSnoc | job_bot.py:130-135 | appending a posting appends it to the result exactly when its identity is new |
| Dedup.DuplicateDropped | job_bot.py:131-133 | of two postings with the same identity, only the first survives |
| Dedup.DedupIdempotent | job_bot.py:127-135 | deduplicating twice is deduplicating once |
| SortKeys.LexLtTransitive | job_bot.py:141 | Python's string order is transitive |
| SortKeys.LexLtTotal | job_bot.py:141 | Python's string order is total on distinct strings |
| SortKeys.KeyLeOrder | job_bot.py:138-142 | the tuple order on sort keys is a total order: transitive, antisymmetric and total, with the strict order its irreflexive part |
| StableSort.SortBy | job_bot.py:138 | the sort returns a sorted rearrangement of its input |
| StableSort.InsertWithKey | job_bot.py:138 | inserting a posting puts it ahead of the postings with its key and moves no other posting of any key |
| StableSort.InsertPastSmaller | job_bot.py:138 | passing a head with a smaller key does not disturb the postings of any key |
| StableSort.SortByStable | job_bot.py:138 | postings with equal keys keep their relative order |
| StableSort.SortedStableUnique | job_bot.py:138 | two sorted lists with the same postings per key, in the same order, are equal |
| StableSort.SortByIsTheStableSort | job_bot.py:138 | any sorted, stable rearrangement of the input is the result of the sort |
| Ranking.CityIndex | job_bot.py:140 | the city key is the position of the lowered location in the city list, or 99 exactly when it is not in the list |
| Ranking.CityIndexRange | job_bot.py:140 | the city key is a list position or 99, and 99 for an empty location |
| Ranking.KeyOf | job_bot.py:138-142 | the key is minus the preference score (one for "hyderabad", one for an office keyword in the joined, lowered fields), then the position of the lowered location in the city list or 99, then the source name |
| Ranking.Rank | job_bot.py:137-142 | ranking returns a rearrangement of the postings, sorted by the key |
| Ranking.RankStable | job_bot.py:137-142 | postings with equal keys keep their input order |
| Ranking.RankIsPythonsSort | job_bot.py:137-142 | any sorted, stable rearrangement equals the ranked list |
| Ranking.HyderabadOnsiteFirst | job_bot.py:33-38 | a Hyderabad posting whose snippet asks for office work ranks strictly ahead of any posting not located in Hyderabad |
| Pipeline.Cap | job_bot.py:143 | `unique[:60]` is the first min(60, n) postings |
| Pipeline.CollectAll | job_bot.py:127-143 | the digest holds at most 60 postings, no more than were fetched, sorted by the key |
| Pipeline.Run | job_bot.py:53-143 | a whole run lists at most 60 postings, each of which passed the admission test and is stamped Indeed, Naukri or Foundit |
| Pipeline.CollectAllShape | job_bot.py:127-143 | the digest is the first min(60, n) postings of the ranked, deduplicated list |
| Pipeline.CollectAllSortedAndDistinct | job_bot.py:127-143 | the digest is sorted by the key and has no two postings with one identity |
| Pipeline.CollectAllIsTheTop | job_bot.py:137-143 | every kept posting ranks no lower than every posting cut off |
| Pipeline.CollectAllFromInput | job_bot.py:118-143 | every digest posting came from one of the fetchers |
| Pipeline.RunAdmitsOnly | job_bot.py:53-143 | every digest posting passed the fetchers' admission test and carries one of the three source names |
| Pipeline.NothingFetchedNothingListed | job_bot.py:118-143 | with nothing fetched the digest is empty |
| Pipeline.FullDigest | job_bot.py:127-143 | with at least 60 distinct identities fetched the digest holds exactly 60 postings |
| Pipeline.IdentityCountBound | job_bot.py:127-135 | a list has at least as many postings as identities |

## Left out

- Scraping: the HTTP requests and HTML parsing are outside the model, and so
  are the CSS selectors of each fetcher and the site URLs (job_bot.py:46-52,
  69-76, 94-100). A fetcher's input is the list of result cards. Each card
  field is either the text of the element or missing (`None`). The link is
  given already assembled, including Indeed's `https://in.indeed.com` prefix.
- Exceptions: in Naukri and Foundit a missing element raises, and the
  fetcher returns the postings it had so far. That is modelled by handing
  over only the cards before the failure. Any exception in `collect_all`
  (job_bot.py:121-125) leaves that fetcher's contribution empty.
- `time.sleep(1)` between fetchers has no effect on the result and is left
  out.
- Foundit's `"India"` fallback location (job_bot.py:106) is guarded by `if c`
  on a card that is never false, so it never applies. It is not modelled.
- `render_html`, `send_email` and `main` (job_bot.py:145 onward) format and
  send the mail and are left out.
- `SKILLS` (job_bot.py:14) is not used by any modelled function.
- Lowering is ASCII only: `str.lower` also lowers non-ASCII letters, which
  the model leaves unchanged. Only two non-ASCII capitals lower to text
  holding an ASCII letter: U+212A (Kelvin sign) becomes "k", and U+0130
  (capital I with dot above) becomes "i" followed by U+0307. Of the
  keywords, the city names and the letters of the two regular expressions,
  only "work from office" holds a "k", and it also holds "office", which is
  an on-site keyword of its own. No keyword ends in "i", and a location is
  compared with a city name ("chennai" among them) as a whole string. So
  the U+0307 after the "i" blocks every match through it, and no
  classifier result and no city index differs. Deduplication does differ:
  Python lowers "Élan" and "élan" to one title (likewise for companies),
  while the model keeps both postings.
- `\b` and `\w` are taken as ASCII (letters, digits, `_`). Python's `re` on
  `str` also counts non-ASCII letters and digits as word characters.
- `\s` is the set of characters `str.isspace()` accepts, which is also
  what `re` uses for `\s` on `str` patterns.
- Classifier.PreferHydOffline: takes strings, not `None`. In `collect_all`
  every field is the result of `clean`, so `location or ""` and
  `summary or ""` never see `None`.
- `prefer_hyd_offline` looks for "hyderabad" anywhere in the joined title,
  company, location and snippet (job_bot.py:34-35), not only in the
  location. The model does the same.
