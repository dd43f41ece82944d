# PrepGenie scraper and IntBuddy chat session, modelled in Dafny

PrepGenie collects interview experiences from the Code360 site and feeds them
to IntBuddy, a retrieval-augmented chatbot. This project models two parts of it:

- the scraping pipeline in `code360.py`:
  - `fetch_interview_links` walks the filtered listing page by page and collects `{title, url}` links;
  - `scrape_interview_details` assembles one interview page into a markdown description;
  - `scrape_link_wrapper` labels a description with a company and a role taken from the link title;
  - `fetch_interview_data` normalises the role, clamps the page count and gathers the records;
- the session-state logic of the IntBuddy page in `intbuddy2.py`: initialisation, loading the chain, the reset keywords and the chat-history append.

The browser is replaced by data. A listing is a sequence of result pages of
cards, and each card may have a title anchor. A detail page has an
optional journey text, a map from round id to round text, and an optional
fallback block. Driver errors appear in the data too: a `Broken` card, a
listing whose filters could not be applied, and a page that does not load.
`fetch_interview_links` (with its card loop), `scrape_interview_details` and
`fetch_interview_data` loop over these values as the source does. Each loop
is proved equal to a recursive specification function, and the properties
are proved about those functions. `scrape_link_wrapper`, the role
normalisation and the page clamp are plain functions.

Modules:

| file | module | contents |
|---|---|---|
| `wrappers.dfy` | `Wrappers` | `Option` |
| `sequences.dfy` | `Sequences` | generic sequence identities used by the proofs |
| `text.dfy` | `Text` | Python's `strip`, `lower`, `upper`, `split`, `"\n".join` and `str(int)` over ASCII, with their laws |
| `link_collector.dfy` | `LinkCollector` | the listing model, `CollectLinks` and the method `FetchInterviewLinks` |
| `detail_extractor.dfy` | `DetailExtractor` | the detail page model, `Details` and the method `ScrapeInterviewDetails` |
| `labels.dfy` | `Labels` | title labelling, the role regex `\s*-\s*` → `" - "` with upper-casing, the page clamp |
| `orchestrator.dfy` | `ScrapeOrchestrator` | the methods `ScrapeLinkWrapper` and `FetchInterviewData` |
| `session.dfy` | `ChatSession` | the session state as the class `Session` with `Init`, `Load`, `Reset`, `Ask` and `Run` |

Two facts about the code that are easy to miss:

- The code does not deduplicate links. The same url on two pages is collected twice (`LinkCollector.PageOrder`).
- A description can be the empty string. This happens when the only element found is a fallback block holding whitespace (`DetailExtractor.EmptyDescription`). `scrape_link_wrapper` then produces no record.

## Model

| member | source | states |
|---|---|---|
| LinkCollector.FetchInterviewLinks | code360.py:31-86 | the links returned are exactly `CollectLinks` of the listing: pages 1..P in order; a missing next page ends the walk; a failed setup gives []; a card error returns what was collected so far |
| LinkCollector.ReadCards | code360.py:61-70 | the inner card loop appends exactly the links of the kept cards up to the first broken card, and reports whether a card raised an error |
| LinkCollector.PagesVisited | code360.py:59-79 | the number of pages read is at most the request and at most the pages that exist, and equals one of them; a request of zero or fewer pages reads none |
| LinkCollector.CollectLinks | code360.py:31-86 | the links of pages 1..min(P, available) up to the first broken card; links are found only when the filters were applied and at least one page was read |
| LinkCollector.CardLinksMembers | code360.py:61-70 | on a page without faults, a link is collected iff some card has an anchor with a non-empty href and a non-empty stripped text that gives it |
| LinkCollector.LinksWellFormed | code360.py:64-68 | every collected link has a non-empty url and a non-empty title with no surrounding whitespace |
| LinkCollector.CardLinksWellFormed | code360.py:64-68 | the same for the links of one page |
| LinkCollector.PageLinksWellFormed | code360.py:59-70 | the same for the links of consecutive pages |
| LinkCollector.LinksBound | code360.py:59-70 | at most one link per card on pages 1..min(P, available) |
| LinkCollector.CardLinksBound | code360.py:62-70 | a page gives at most as many links as it has cards |
| LinkCollector.PageLinksBound | code360.py:59-70 | consecutive pages give at most as many links as they have cards |
| LinkCollector.LaterPagesUnread | code360.py:59 | pages after P are never read: appending pages to a listing that already has P pages changes nothing |
| LinkCollector.ShortListing | code360.py:72-79 | a listing with k < P pages gives the links of pages 1..k, as if k pages had been requested; running out of pages is not an error |
| LinkCollector.PageOrder | code360.py:59-70 | links keep page order, then card order, and duplicates across pages are kept |
| LinkCollector.CardLinksConcat | code360.py:62-70 | the links of fault-free cards followed by more cards are the links of each part, concatenated |
| LinkCollector.PageLinksConcat | code360.py:59-70 | the same for fault-free pages followed by more pages |
| LinkCollector.CardLinksStep | code360.py:62-70 | reading one more card appends its link when it is kept; a broken card ends the page with the links before it |
| LinkCollector.BrokenCardStops | code360.py:81-86 | a broken card makes the page faulty, and the page gives the links of the cards before it |
| LinkCollector.FaultKeepsCollected | code360.py:81-86 | a broken card ends collection with the links of the earlier pages and the earlier cards of its page |
| LinkCollector.PageStep | code360.py:59-70 | reading page p after fault-free pages appends page p's links |
| LinkCollector.BrokenStops | code360.py:81-86 | a broken card on page p ends the walk with page p's earlier links, whatever later pages hold |
| LinkCollector.IntactTail | code360.py:62 | the cards after a fault-free first card are fault-free |
| DetailExtractor.ScrapeInterviewDetails | code360.py:90-147 | the description returned is exactly `Details` of the page: journey section, rounds from id 1 until the first missing id, fallback only when nothing else was found, joined with newlines; None when the page fails or the fallback element is missing |
| DetailExtractor.Details | code360.py:90-147 | the description of a page; it is None exactly when the page fails, or when it has no non-empty journey, no round 1 and no fallback element |
| DetailExtractor.RoundIncludedIff | code360.py:115-130 | round i is in the description iff rounds 1..i all exist |
| DetailExtractor.RoundInDescription | code360.py:115-130 | when rounds 1..i all exist, round i's section with its stripped text is part of the description |
| DetailExtractor.RoundSectionAt | code360.py:119-128 | the k-th round section is round i + k under its own `### Round` heading, in ascending order, with its stripped text even when that is empty |
| DetailExtractor.RoundSectionsLength | code360.py:115-130 | the scan finds exactly as many sections as there are consecutive round ids |
| DetailExtractor.RoundRunEnds | code360.py:129-130 | the id right after the run is missing, which is where the scan stops |
| DetailExtractor.HeadingIsNoSection | code360.py:124-127 | no round section is the rounds heading |
| DetailExtractor.JourneyIsNoHeading | code360.py:108-110 | the journey part is not the rounds heading |
| DetailExtractor.RoundPartsHeading | code360.py:123-127 | the rounds heading occurs once, first, followed by round 1, when round 1 exists, and not at all otherwise |
| DetailExtractor.RoundsHeadingOnce | code360.py:119-128 | in the whole description the rounds heading occurs exactly once, right after the journey and before round 1, iff round 1 exists |
| DetailExtractor.JourneyFirst | code360.py:108-110 | the journey comes first with its heading exactly when its stripped text is non-empty, and is absent otherwise |
| DetailExtractor.FallbackUnread | code360.py:133 | with a journey or a first round, the fallback block does not affect the result |
| DetailExtractor.FallbackResult | code360.py:133-141 | with neither, a missing fallback gives None and a present one gives its stripped text |
| DetailExtractor.EmptyDescription | code360.py:133-141 | the description is "" exactly when the only thing found is a whitespace-only fallback block |
| DetailExtractor.SectionsStep | code360.py:127-128 | one step of the round scan moves round i from what is left to scan to what has been gathered |
| DetailExtractor.PartsAssembled | code360.py:97-130 | the journey part, the heading when rounds were found, and the round sections make up all of the page's parts |
| Labels.TitleOneBar | code360.py:158 | a title with exactly one vertical bar gives the stripped text on each side of it |
| Labels.TitleLabels | code360.py:157-160 | a missing title, or one whose number of vertical bars is not one, gives the caller's company and role; a title with one bar gives two labels with no surrounding whitespace |
| Labels.LabelRecord | code360.py:156-162 | a record is produced exactly for a non-empty description, and it carries that description unchanged |
| Labels.TitleSplits | code360.py:158 | a title made of a left part, one vertical bar and a right part, with no other bar, gives the two stripped parts |
| Labels.HyphenCount | code360.py:167 | one match of `\s*-\s*` consumes exactly one hyphen |
| Labels.UpperCount | code360.py:167 | upper-casing keeps the number of hyphens |
| Labels.SpaceHyphens | code360.py:167 | the substitution `re.sub(r'\s*-\s*', ' - ', s)` keeps the number of hyphens |
| Labels.NormaliseRole | code360.py:167 | the normalised role has as many hyphens as the role typed, and a role without a hyphen is only upper-cased |
| Labels.SingleHyphen | code360.py:167 | a single hyphen with any whitespace around it becomes " - ", and the rest of a hyphen-free role is copied |
| Labels.SdeExample | code360.py:167 | "sde-2" is normalised to "SDE - 2" |
| Labels.NoHyphenUnchanged | code360.py:167 | a role without a hyphen is left unchanged by the substitution |
| Labels.PrefixCopied | code360.py:167 | a hyphen-free prefix that does not end in whitespace is copied unchanged |
| Labels.HyphenStep | code360.py:167 | a whitespace run followed by a hyphen is a match, which also consumes the whitespace after the hyphen |
| Labels.NoMatchBefore | code360.py:167 | the pattern cannot match at the start of a hyphen-free prefix that ends in a non-space |
| Labels.NoHyphenNext | code360.py:167 | without a hyphen the pattern does not match |
| Labels.AfterHyphen | code360.py:167 | what is left after a match is strictly shorter than the input |
| Labels.ClampPages | code360.py:168 | `max(1, pages)`: at least 1, and the caller's count when that is positive |
| ScrapeOrchestrator.ScrapeLinkWrapper | code360.py:151-162 | the record is the link's labels and its page's description, produced only when that description is non-empty |
| ScrapeOrchestrator.FetchInterviewData | code360.py:166-194 | None exactly when the model gives None; otherwise the rows are, as a multiset, the records of the links in order |
| ScrapeOrchestrator.InterviewData | code360.py:166-194 | a result, when there is one, is non-empty and comes from a non-empty list of links |
| ScrapeOrchestrator.InterviewDataNone | code360.py:170-194 | None iff no links were found or no link gave a record; otherwise there are between 1 and as many rows as links |
| ScrapeOrchestrator.RecordsMembers | code360.py:178-187 | a record is a row exactly when some collected link produces it |
| ScrapeOrchestrator.RecordsDescribed | code360.py:156-162 | every row carries a non-empty description |
| ScrapeOrchestrator.RecordsBound | code360.py:178-187 | there are never more rows than links |
| ScrapeOrchestrator.RawRoleFallback | code360.py:180 | a title without exactly one vertical bar gets the caller's company and the role as typed, not the normalised one |
| ScrapeOrchestrator.PagesAtLeastOne | code360.py:168 | any page count below one behaves as one |
| ScrapeOrchestrator.RecordsConcat | code360.py:178-187 | the rows of two runs of links are the rows of each, concatenated |
| ScrapeOrchestrator.RecordsStep | code360.py:183-187 | one more link adds its record, if any, at the end |
| ChatSession.Session.Init | intbuddy2.py:92-95 | the new state is `InitState` of the old one |
| ChatSession.InitState | intbuddy2.py:92-95 | afterwards both keys are present; existing values of both keys and `structured` are kept |
| ChatSession.InitIdempotent | intbuddy2.py:92-95 | initialising twice is initialising once, and an initialised state is not changed |
| ChatSession.InitCleared | intbuddy2.py:92-95 | a new or cleared session starts with an empty history and no chain |
| ChatSession.Session.Load | intbuddy2.py:98-110 | the new state is `LoadState`: structured data and a chain over the loaded store are set |
| ChatSession.LoadState | intbuddy2.py:98-110 | loading sets a present chain whose retriever reads the loaded store with k = 5, sets `structured` and keeps the history |
| ChatSession.Session.Reset | intbuddy2.py:118 | every key is cleared |
| ChatSession.Session.Ask | intbuddy2.py:113-127 | the new state and the answer are `AskState` of the old state and the input |
| ChatSession.AskState | intbuddy2.py:113-127 | an input that gets no answer leaves the state unchanged or clears it; an answered one keeps both keys set and adds one turn |
| ChatSession.Session.Run | intbuddy2.py:92-127 | one run of the script is initialisation, an optional load and then the chat input |
| ChatSession.RunState | intbuddy2.py:92-127 | a run answers only if it loads a chain or the session already held one |
| ChatSession.Session.constructor | intbuddy2.py:92 | a new session holds no keys |
| ChatSession.NoChainNoAnswer | intbuddy2.py:113 | without a chain no question is answered and nothing changes |
| ChatSession.AnswerIff | intbuddy2.py:113-127 | an answer is given iff a chain is set and a non-empty input that is not a reset keyword was submitted |
| ChatSession.ResetClears | intbuddy2.py:115-119 | a reset keyword clears every key, gives no answer and appends no turn |
| ChatSession.IsReset | intbuddy2.py:115 | an input is a reset when, lower-cased and stripped, it is one of exit, quit, bye; such an input has at least three characters |
| ChatSession.ResetThenRefused | intbuddy2.py:92-95 | after a reset the next run without a load has an empty history, no chain, and refuses any question |
| ChatSession.ResetIgnoresCaseAndPadding | intbuddy2.py:115 | whether an input is a reset does not depend on upper case or surrounding whitespace |
| ChatSession.AskAppends | intbuddy2.py:122-127 | a question is answered using the history from before the turn; then exactly one (question, answer) pair is appended, earlier turns are kept, and the chain and structured data are unchanged |
| Text.StripSpec | code360.py:66 | `strip` gives a trimmed middle part framed by two whitespace runs that make up the rest of the string |
| Text.StripEmpty | code360.py:67 | a string strips to "" iff it is all whitespace |
| Text.StripIdempotent | code360.py:66 | stripping twice is stripping once |
| Text.StripPadded | code360.py:66 | a trimmed string padded with whitespace strips back to itself |
| Text.StripAbsorbs | intbuddy2.py:115 | whitespace padding does not change what a string strips to |
| Text.LowerStripCommute | intbuddy2.py:115 | lower-casing and stripping commute |
| Text.LowerUpper | intbuddy2.py:115 | lower-casing ignores an earlier upper-casing |
| Text.SplitSpec | code360.py:158 | `split` gives one piece more than there are separators, and no piece contains the separator |
| Text.JoinSplit | code360.py:158 | joining the pieces of a split gives back the string |
| Text.SplitJoin | code360.py:158 | splitting a join of separator-free pieces gives back the pieces |
| Text.JoinEmpty | code360.py:141 | a join is "" iff there are no parts or a single empty part |
| Text.NatToString | code360.py:127 | the decimal form of a round number is non-empty and made of digits |

## Left out

- Browser setup, the Chrome options, the site url, waits, sleeps, CSS and XPath selectors, and the continue-reading click (code360.py:16-56, 95-106). These are I/O. The listing and detail page datatypes stand for what the browser would find.
- An error while clicking to the next page, other than the timeout that means the page is missing. The model treats page k + 1 as reachable exactly when it exists in the listing.
- `ThreadPoolExecutor` and `as_completed` (code360.py:178-187). The model scrapes the links one after another.
- FetchInterviewData: promises the rows only as a multiset, because the completion order of the worker pool is unspecified.
- The `pandas.DataFrame` built from the rows (code360.py:191). It is a sequence of records here.
- The progress messages printed by every step.
- `int(pages)` on a non-integer value. The page count is an `int` here.
- The `URL` and `Title` key fallbacks of `scrape_link_wrapper` (code360.py:152-153). Links built by `fetch_interview_links` always have `url` and `title`.
- Text: `strip`, `lower`, `upper` and regex `\s` are modelled over ASCII only. Whitespace is the ASCII characters Python's `str.isspace` accepts (codes 9-13 and 28-32). Python's Unicode-aware versions are not modelled.
- Labels.SpaceHyphens: the contract does not claim exactly one space around every hyphen, because consecutive hyphens break that.
- Session: Streamlit widgets and rendering, the spinners, the success messages and the redisplay of the history (intbuddy2.py:51-89, 110, 116, 129-131).
- Session: the Gemini model, the embeddings, FAISS and the retrieval chain's internals (intbuddy2.py:22-48, 103-109, 122-126). A chain is known only by its retriever. Its answer is a function the caller passes in.
- Session: `load_vectorstore` is an input of `Load`. Two defects of the script around it are not modelled: it imports `main` from `code360`, which defines no `main`, and it would crash at line 42 on a None result.
- Session: `st.cache_resource.clear()` and `st.stop()` (intbuddy2.py:117, 119). The cache is library-managed. The model's reset simply ends the run.
- Session: the chat input is `None` when nothing was submitted and `""` when an empty input was submitted. Both are falsy in the script and both mean no question.
- The hard-coded API key, the event-loop setup and the commented-out PDF block (intbuddy2.py:14-20, 133-142).
- The `data_preprocessor`, `prompt` and `pdfgen` modules are not part of this model.
