# FinTrackAI core, modelled in Dafny

FinTrackAI is a personal-finance tracker. Bank and brokerage statements go in,
a language model turns them into transactions, and transfers between accounts
are linked and reviewed. This project models three parts of it and proves
properties about each.

- **Transfer review** (`transfer_review.dfy`, module `TransferReview`). The
  browser fetches the transaction list and keeps the linked transfers. The
  backend route returns only the 100 most recent transactions (newest `_id`
  first), so a couple split by that cut arrives with one member missing and
  behaves as a dangling link. The model starts from whatever list arrives. It groups
  them into source/target pairs with a `processed` set. It then picks the
  amounts shown in each pair's red (debit) and green (credit) cells. The
  grouping loop is a method with a loop invariant. That invariant ties the
  method to a left fold (`Walk`) over the candidate list, and the lemmas
  about the pairs are stated about that fold.
- **Model-reply clean-up** (`llm_reply.dfy`, module `LlmReply`). The backend
  tidies a model reply before `json.loads` sees it:
  - for Gemini, Python `strip()`, removal of the ```` ```json ```` / ```` ``` ````
    fences, and the "null" test;
  - for the local model, slicing from the first opening bracket to the last
    closing one.

  It also chooses a provider from `LLM_TYPE` and `GEMINI_API_KEY`. The JSON
  parser is a parameter `parse: string -> Option<J>`, with `None` where
  `json.loads` raises.
- **Sample-data schedules** (`generate_data.dfy`, module `GenerateData`): the
  bi-weekly pay dates, and the Fidelity individual and Roth IRA rows. A date is
  a day ordinal: 2025-01-01 is day 0. `DayOfMonth` gives the day of the month
  in 2025. The two account loops are methods, each proved equal to a day-by-day
  specification function. Each schedule's promises are proved of that function
  by induction.

`options.dfy` holds the `Option` and `Result` datatypes. Amounts are integer
cents.

Four behaviours of the code a reader might not expect:

- **Disjointness is conditional.** The pairs are disjoint only when candidate
  ids are unique and links are mutual (`PairsDisjoint`). A third record that
  links one way to an already paired record pairs that record again
  (`OneWayLinkRepeatsTarget`).
- **A dangling link only stops its own record.** A record whose link matches
  no candidate is never a source. It can still be a target when another
  candidate links to it; with mutual links it cannot (`DanglingLinkNeverPaired`).
- **Zero amounts.** The green cell tests `amount > 0`, so a zero-amount source
  shows the target's amount in both cells (`ZeroSourceShowsTargetTwice`).
- **Same-sign pairs.** There is no "source is debit" fallback. When both
  amounts are positive, the debit cell shows the target and the credit cell
  shows the source (`SameSignLegs`).

## Model

| member | source | states |
|---|---|---|
| TransferReview.Candidates | frontend/src/components/TransferReview.jsx:20 | the filtered list is no longer than the fetched one |
| TransferReview.CandidatesMembers | frontend/src/components/TransferReview.jsx:20 | a record is a candidate iff it is in the fetched list, has the transfer flag and has a non-empty link |
| TransferReview.CandidatesAppend | frontend/src/components/TransferReview.jsx:20 | filtering distributes over concatenation, so the candidates keep their relative order |
| TransferReview.FirstWithId | frontend/src/components/TransferReview.jsx:29 | the index found holds the id and no earlier index does; None iff no record has the id |
| TransferReview.FindPartner | frontend/src/components/TransferReview.jsx:29 | the partner found is the first candidate whose id is the record's link; None iff there is none |
| TransferReview.FetchTransferPairs | frontend/src/components/TransferReview.jsx:20-35 | the pairs built by the loop with its processed set are those of the fold `ResolvedPairs` over the candidates |
| TransferReview.PairedRecordsAreTransfers | frontend/src/components/TransferReview.jsx:20-31 | both members of every pair come from the fetched list and pass the transfer filter |
| TransferReview.TargetIsFirstMatch | frontend/src/components/TransferReview.jsx:29-31 | each target carries the id its source links to and is the first candidate with that id |
| TransferReview.ProcessedNeverSource | frontend/src/components/TransferReview.jsx:27-33 | at the end, processed is exactly the ids of the pairs; no source id was processed by an earlier pair |
| TransferReview.VisitWithoutEffect | frontend/src/components/TransferReview.jsx:27-34 | visiting a processed record, or one whose link matches no candidate, changes nothing |
| TransferReview.DanglingLinkNeverPaired | frontend/src/components/TransferReview.jsx:29-34 | a record whose link matches no candidate is never a source; under mutual links it is never a target |
| TransferReview.PairsInSourceOrder | frontend/src/components/TransferReview.jsx:26-31 | there is at most one pair per candidate; pairs come in the list order of their sources |
| TransferReview.WalkDisjoint | frontend/src/components/TransferReview.jsx:26-34 | with unique ids and mutual links, the pairs after any prefix of the walk share no id |
| TransferReview.PairsDisjoint | frontend/src/components/TransferReview.jsx:26-34 | with unique ids and mutual links, no id occurs in two different pairs |
| TransferReview.CoupleEmitted | frontend/src/components/TransferReview.jsx:27-33 | with unique ids and mutual links, a candidate linking to a later one reaches its turn unprocessed, and the pair of the two is pushed |
| TransferReview.CoupleResolvedOnce | frontend/src/components/TransferReview.jsx:26-34 | with unique ids and mutual links, a linked couple gives exactly one pair, with the earlier record as source, and neither id is in any other pair |
| TransferReview.OneWayLinkRepeatsTarget | frontend/src/components/TransferReview.jsx:29-33 | without mutual links, a one-way link to an already paired record pairs it a second time |
| TransferReview.CoupleAndNonTransfer | frontend/src/components/TransferReview.jsx:20-35 | a linked couple plus a non-transfer record gives one pair, first record as source, and the third record in no pair |
| TransferReview.DebitCell | frontend/src/components/TransferReview.jsx:75 | the red cell shows one of the two amounts, and shows a negative amount only when a leg is negative |
| TransferReview.CreditCell | frontend/src/components/TransferReview.jsx:90 | the green cell shows one of the two amounts, and shows a positive amount only when a leg is positive |
| TransferReview.OppositeLegsShownBySign | frontend/src/components/TransferReview.jsx:75-90 | for legs of opposite sign, the red cell shows the negative leg and the green cell the positive one, whichever is the source |
| TransferReview.ZeroSourceShowsTargetTwice | frontend/src/components/TransferReview.jsx:75-90 | a zero source amount shows the target amount in both cells |
| TransferReview.SameSignLegs | frontend/src/components/TransferReview.jsx:75-90 | two negative legs: source red, target green; two positive legs: target red, source green |
| LlmReply.Strip | backend/core/llm.py:53 | removes only whitespace, from the two ends only, and leaves no whitespace at either end |
| LlmReply.StripPadded | backend/core/llm.py:53 | stripping a text padded with whitespace gives back exactly the text |
| LlmReply.Lower | backend/core/llm.py:60 | the result is never an upper-case letter; an upper-case letter becomes its lower-case partner, and every other character is kept |
| LlmReply.Upper | backend/core/llm.py:124 | the result is never a lower-case letter; a lower-case letter becomes its upper-case partner, and every other character is kept |
| LlmReply.LowerStrEqual | backend/core/llm.py:60 | two texts lower-case to the same text iff they have the same length and agree letter by letter up to case |
| LlmReply.UpperStrEqual | backend/core/llm.py:124 | two texts upper-case to the same text iff they have the same length and agree letter by letter up to case |
| LlmReply.NullWordAnyCase | backend/core/llm.py:60 | the null test accepts exactly the spellings of "null" in any mix of cases |
| LlmReply.DropOpeningFence | backend/core/llm.py:43-44 | when the text starts with ```` ```json ````, the result is the text after it; otherwise the text is unchanged |
| LlmReply.DropClosingFence | backend/core/llm.py:45-46 | when the text ends with ```` ``` ````, the result is the text before it; otherwise the text is unchanged |
| LlmReply.FencedRoundTrip | backend/core/llm.py:43-46 | removing the fences from a fenced body gives back the body |
| LlmReply.UnfencedUnchanged | backend/core/llm.py:43-46 | text with neither fence is passed on unchanged |
| LlmReply.GeminiExtract | backend/core/llm.py:41-47 | succeeds iff the unfenced reply parses, with that value; otherwise the decode error propagates |
| LlmReply.GeminiInterpret | backend/core/llm.py:53-66 | gives a value iff the stripped, unfenced reply is not "null" in any case and parses; the value is the parse |
| LlmReply.FencedNullMissesNullTest | backend/core/llm.py:53-64 | a ```` ```json ```` fenced null reply is not caught by the "null" test, because the newlines around it survive; the reply goes to the parser |
| LlmReply.GeminiInterpretPadded | backend/core/llm.py:53-66 | a fenced reply with whitespace around it is read from exactly its body, unless the body is "null" |
| LlmReply.Find | backend/core/llm.py:94 | returns the first index of the character, or -1 iff it is absent |
| LlmReply.RFind | backend/core/llm.py:95 | returns the last index of the character, or -1 iff it is absent |
| LlmReply.BracketSlice | backend/core/llm.py:94-97 | None iff there is no opening bracket; the slice is empty iff no closing bracket follows the first opening one; otherwise it runs from the first opening to the last closing bracket |
| LlmReply.BracketSliceWrapped | backend/core/llm.py:94-97 | with no stray brackets around the outer pair, the slice is exactly the bracketed part |
| LlmReply.LocalExtract | backend/core/llm.py:92-103 | gives a parsed value iff the reply has an opening bracket and its slice parses; otherwise the empty list |
| LlmReply.LocalExtractNeedsBrackets | backend/core/llm.py:94-103 | a reply with no opening bracket, or no closing bracket after it, gives the empty list |
| LlmReply.LocalExtractWrapped | backend/core/llm.py:94-103 | a reply with one outer list and no stray brackets is parsed from exactly that list |
| LlmReply.LocalInterpret | backend/core/llm.py:110-121 | gives a value only if the reply has an opening brace; with one, the result is the parse of the brace slice |
| LlmReply.LocalInterpretWrapped | backend/core/llm.py:110-121 | a reply with one outer object and no stray braces is parsed from exactly that object |
| LlmReply.GetLlmProvider | backend/core/llm.py:123-127 | local iff LLM_TYPE (default CLOUD) upper-cases to LOCAL; otherwise Gemini when the key is set and non-empty, and the key error when it is not |
| LlmReply.LocalChosenAnyCase | backend/core/llm.py:124-125 | LOCAL is chosen for exactly the spellings of "local" in any case, and the default is not one of them |
| GenerateData.DayFromIsOffset | data/generate_data.py:103 | searching from month m, the day of the month lies in 1..31 and is the offset, plus one, from the start of the month containing the date |
| GenerateData.DayOfMonthIsOffset | data/generate_data.py:103 | the day of the month of a 2025 date lies in 1..31 and is its offset, plus one, from the start of its month |
| GenerateData.DayOfMonthOf | data/generate_data.py:103 | day n of month m is read back as n, for every day the month has |
| GenerateData.EndDateIsNovember30 | data/generate_data.py:7 | END_DATE is the 30th of November |
| GenerateData.BiweeklyPayDates | data/generate_data.py:16-23 | a day is returned iff it lies in the range and is 2025-01-03 plus whole fortnights; the list climbs in steps of 14; it is empty when the range ends before the first pay day |
| GenerateData.NoPayDayWithinPeriod | data/generate_data.py:22 | no pay day lies strictly between two pay days one period apart |
| GenerateData.LastPayDay | data/generate_data.py:16-25 | the last pay day up to END_DATE is the 24th, on 21 November |
| GenerateData.FidelityIndividualRows | data/generate_data.py:100-111 | the rows built by the loop are the day-by-day rows of `InvestmentRowsBefore` |
| GenerateData.TransfersInRange | data/generate_data.py:103-104 | every transfer row is dated on a 16th within the visited days |
| GenerateData.PurchasesPaired | data/generate_data.py:107-109 | every FXAIX purchase directly follows its transfer, two days later, and is not after the end date |
| GenerateData.Every16thTransferred | data/generate_data.py:103-109 | every visited 16th has its transfer, and its purchase when that falls by the end date |
| GenerateData.InvestmentSchedule | data/generate_data.py:100-111 | the individual rows satisfy all three properties above |
| GenerateData.FidelityRothRows | data/generate_data.py:124-136 | the rows built by the loop are the day-by-day rows of `RothRowsBefore` |
| GenerateData.FirstRowIsContribution | data/generate_data.py:127-128 | the first Roth row, if any, is a contribution |
| GenerateData.ContributionsInRange | data/generate_data.py:127-128 | every contribution is dated on a 6th within the visited days |
| GenerateData.ContributionsFollowed | data/generate_data.py:131-134 | a contribution is followed by exactly the NVDA and TSLA purchases of the next day, or by nothing when that day is past the end date |
| GenerateData.Every6thContributed | data/generate_data.py:127-128 | every visited 6th has its contribution |
| GenerateData.RothSchedule | data/generate_data.py:124-136 | the Roth rows satisfy all four properties above |

## Left out

- HTTP and I/O are not modelled: the axios calls, the unlink request, the backend routes, CSV and DataFrame output, and `print`. Each operation starts from the data it receives.
- React state, loading flags and rendering are not modelled beyond the two amount cells.
- The review panel's transaction records are modelled without their dates, account names and descriptions, which the panel only displays.
- The model calls (`generate_content`, the Gemini SDK, the Ollama endpoint) are not modelled; operations start from the reply text.
- `json.loads` is the `parse` parameter and is not modelled itself.
- Lower: maps only ASCII letters. Python's full Unicode case mapping is not modelled. This is exact for the "null" and "LOCAL" comparisons whenever the other characters are ASCII.
- Upper: same ASCII-only limitation as Lower.
- GeminiInterpret: Python returns None both for a reply caught by the "null" test and for a reply that parses to JSON null. The model keeps the two apart: a result Some(v) whose v is the JSON null stands for Python's None (see FencedNullMissesNullTest).
- Amounts are integer cents. JavaScript numbers and Python floats are not modelled.
- The generator's random rows are not modelled: Bank of America and Baxter rows, and the float salary arithmetic.
- DayOfMonth: covers the days of 2025 only. The generator never leaves that year.
- FidelityIndividualRows: the end date and the start date must lie within 2025. The source runs from START_DATE to END_DATE.
- FidelityRothRows: same 2025-only date limitation as FidelityIndividualRows.
- LocalInterpret: the two source branches for a reply without an opening brace both return None, so the model has one branch.
- Concurrency between overlapping fetches is not modelled.
