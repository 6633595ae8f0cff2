# Expertosy questionnaire core, modelled in Dafny

Expertosy asks a language model for a questionnaire about a product search.
It parses the model's free-form answer into questions with options and walks
the user through them. From the answers it asks for a recommendation, and then
for a ranking of the recommended products. This project models the text
handling and the answer flow of that core, and proves what it does:

- **Strict ranking parser** (`RankingParser`). This is `parseQuestionnaire` of
  both ranking questionnaires.
  - The text is split at `N. ` numbers.
  - The question is the first line with a `?`.
  - Options are the lines labelled `A`–`D` followed by `.` or `)`.
  - A section is kept only with exactly four options.
- **Loose, de-duplicating parser** (`LooseParser`). This is the main
  questionnaire page's parser.
  - The text is split at `N.`, and boilerplate sections are skipped.
  - The prompt has its `**` removed.
  - Options are the `A)`–`D)` lines, de-duplicated, each split into a text and a
    description at the first separator.
  - A section needs at least two options.
  - An empty text, no sections or no questions each raise their own error.
- **Factor path** (`Factors`). Each factor becomes one question on a fixed
  four-step importance scale.
- **Category, help text and icon helpers** (`Categories`).
- **Markdown-header parser** (`HeaderParser`). This is the older questionnaire
  page's parser. It splits at `#… N.` headers, and its options come from
  `- A)` lines.
- **Command-line flow of `app.py`** (`Cli`).
  - `parse_questionnaire` reads `Q:` lines and numbered option lines.
  - The choice check accepts `1 ≤ n ≤ len(options)`.
  - The answers form an insertion-ordered dictionary.
  - The preference text is built from the answers.
- **Product cards** (`ProductCards`). A `N. Name - Price` string is split into
  its parts, and the cards are laid out in a left column of five and a right
  column of the rest.
- **Answer wizard** (`Wizard`).
  - Selecting, going back and the remaining-questions line.
  - The replies of the recommendation and ranking requests.
  - The two places where the code does something other than what it evidently
    means (see Findings).

Shared helpers:

- `Text`: whitespace and trimming, splitting, joining, substring search and
  ASCII lower-casing.
- `Lists`: filter-map, dropping empty strings and de-duplication.
- `Sections`: JavaScript's `String.prototype.split` with the three
  delimiter regexes the parsers use, and the line/trim/filter pipeline.
- `Results`: `Option` and `Result`.

Reading choices:

- **Whitespace.** JavaScript `trim()` and `\s`, and Python `strip()` and
  `\s`, are read as one ASCII set: space, tab, line feed, carriage return,
  vertical tab and form feed.
- **Line terminators.** A regex `.` refuses line feed and carriage return.
  U+2028 and U+2029 are not treated as line terminators.
- **Lower-casing** is ASCII only.
- **The separator class** of the loose parser is modelled as the file spells
  it: hyphen, U+201A, U+00C4, U+00EC and colon. That is an en dash (U+2013)
  stored as UTF-8 and read back as Mac Roman. So an en dash in an option does
  not split it, while those three letters do.
- **Product prices.** `renderProductCard`'s price is the second piece of
  `split(' - ')`. That piece runs up to a second ` - ` when there is one, not
  to the end of the string.

## Model

| member | source | states |
|---|---|---|
| Sections.SplitReassembles | TERRAWIZE/expertosy_web/frontend/src/components/RankingQuestionnaire.tsx:119 | splitting at a delimiter regex loses nothing: the pieces, with the removed delimiters put back between them, rebuild the text, and there is one more piece than delimiters |
| Sections.DelimitersAreMatches | TERRAWIZE/expertosy_web/frontend/src/components/RankingQuestionnaire.tsx:119 | every removed delimiter is non-empty and is matched whole by the delimiter pattern |
| Sections.MatchPrefix | TERRAWIZE/expertosy_web/frontend/src/components/RankingQuestionnaire.tsx:119 | a match, cut out of its text, is still a match of the same length: what follows it never changes how much the pattern takes |
| Sections.NoMatchInAt | TERRAWIZE/expertosy_web/frontend/src/components/RankingQuestionnaire.tsx:119 | the scan's "no match in the first m positions" holds exactly when, at each of those positions, the pattern matches nothing |
| Sections.SplitSkipsUnmatched | TERRAWIZE/expertosy_web/frontend/src/components/RankingQuestionnaire.tsx:119 | a stretch in which no match starts is carried, unchanged, into the current piece |
| Sections.SplitWithoutMatch | TERRAWIZE/expertosy_web/frontend/src/components/RankingQuestionnaire.tsx:119 | a text in which the pattern matches nowhere is one piece, the whole text |
| Sections.SplitAtMatchAfter | TERRAWIZE/expertosy_web/frontend/src/components/RankingQuestionnaire.tsx:119 | the first cut is at the leftmost position where the pattern matches: the first piece is everything before it, and splitting continues after the match |
| Sections.SplitSkipsNonStarters | TERRAWIZE/expertosy_web/frontend/src/components/RankingQuestionnaire.tsx:119 | characters where no delimiter can begin are carried into the current piece unchanged |
| Sections.CleanLinesRoundTrip | TERRAWIZE/expertosy_web/frontend/src/components/RankingQuestionnaire.tsx:124-126 | splitting into lines, trimming each and dropping empty ones gives back lines that are already trimmed, non-empty and single-line |
| Sections.CleanLinesBlankRoundTrip | TERRAWIZE/expertosy_web/frontend/src/components/RankingQuestionnaire.tsx:124-126 | the same holds with a blank line after the text |
| RankingParser.OptionOf | TERRAWIZE/expertosy_web/frontend/src/components/RankingQuestionnaire.tsx:135-139 | a line gives an option exactly when it starts with `A`–`D` followed by `.` or `)`; the option text is trimmed |
| RankingParser.OptionOfLabelled | TERRAWIZE/expertosy_web/frontend/src/components/RankingQuestionnaire.tsx:135-139 | the label and the whitespace after it are removed: `A) text`, `A.text` and `B)   text` give `text` |
| RankingParser.ParseSection | TERRAWIZE/expertosy_web/frontend/src/components/RankingQuestionnaire.tsx:124-148 | a section is accepted iff some line has a `?` and there are exactly four option lines; the question is the first line with `?`, and the options are all option lines in order |
| RankingParser.Parse | TERRAWIZE/expertosy_web/frontend/expertosy-web/src/components/RankingQuestionnaire.tsx:88-129 | never fails; at most one question per section; each question has exactly four options and a `?` |
| RankingParser.SectionsIndependent | TERRAWIZE/expertosy_web/frontend/src/components/RankingQuestionnaire.tsx:119-151 | for a list of sections cut into two parts, the questions are those of the first part followed by those of the second: each section is parsed on its own |
| RankingParser.RepeatedOptionsKept | TERRAWIZE/expertosy_web/frontend/src/components/RankingQuestionnaire.tsx:135-139 | option lines are not de-duplicated |
| RankingParser.ParseRendered | TERRAWIZE/expertosy_web/frontend/expertosy-web/src/components/RankingQuestionnaire.tsx:88-129 | a questionnaire written in the requested format (`N. question?` followed by four labelled options) parses back to exactly its questions |
| RankingParser.SampleParses | TERRAWIZE/expertosy_web/frontend/src/components/RankingQuestionnaire.test.tsx:125-151 | the two-question sample parses to its two questions, the first being "What is your primary concern when choosing between these products?" with its four options |
| Categories.CategoryOf | TERRAWIZE/expertosy_web/frontend/src/components/QuestionnairePage.tsx:227-234 | each category holds exactly when its keywords are mentioned and no earlier group's are; General holds when none are mentioned |
| Categories.CategoryIgnoresCase | TERRAWIZE/expertosy_web/frontend/src/components/QuestionnairePage.tsx:227-234 | the category does not depend on letter case |
| Categories.HelpText | TERRAWIZE/expertosy_web/frontend/src/components/QuestionnairePage.tsx:236-248 | a help text is given exactly when the question mentions space, budget or fuel; the space text wins over the budget text, which wins over the fuel text |
| Categories.HelpTextIgnoresCase | TERRAWIZE/expertosy_web/frontend/src/components/QuestionnairePage.tsx:236-248 | the help text does not depend on letter case |
| Categories.IconOf | TERRAWIZE/expertosy_web/frontend/src/components/QuestionnairePage.tsx:218-225 | the pin is shown exactly when no vehicle word is mentioned; each car is shown exactly when its word is mentioned and no earlier one is (compact, sedan, SUV, van) |
| Categories.IconIgnoresCase | TERRAWIZE/expertosy_web/frontend/src/components/QuestionnairePage.tsx:218-225 | the icon does not depend on letter case |
| Categories.MentionsIgnoresCase | TERRAWIZE/expertosy_web/frontend/src/components/QuestionnairePage.tsx:229 | keyword matching lower-cases the text first |
| Categories.HelpImpliesSpecificCategory | TERRAWIZE/expertosy_web/frontend/src/components/QuestionnairePage.tsx:227-248 | a question with a help text is filed under space, budget or efficiency |
| Categories.SpecificCategoryPersists | TERRAWIZE/expertosy_web/frontend/src/components/QuestionnairePage.tsx:227-234 | appending text to a question with a specific category keeps it out of General |
| LooseParser.StripBold | TERRAWIZE/expertosy_web/frontend/src/components/QuestionnairePage.tsx:165-167 | removing `**` leaves no `**`, removes only asterisks, and keeps a first character that does not begin a `**` (StripBoldStars and StripBoldAppend say exactly what is removed) |
| LooseParser.StripBoldKeepsPlain | TERRAWIZE/expertosy_web/frontend/src/components/QuestionnairePage.tsx:165-167 | text without `**` is unchanged |
| LooseParser.StripBoldIdempotent | TERRAWIZE/expertosy_web/frontend/src/components/QuestionnairePage.tsx:165-167 | removing bold markers twice is the same as once |
| LooseParser.StripBoldStars | TERRAWIZE/expertosy_web/frontend/src/components/QuestionnairePage.tsx:165-167 | a run of k asterisks loses them in pairs from the left: one asterisk is left when k is odd, none when it is even, and the rest is stripped on its own |
| LooseParser.StripBoldAppend | TERRAWIZE/expertosy_web/frontend/src/components/QuestionnairePage.tsx:165-167 | text that does not end in an asterisk is stripped independently of what follows it, so all characters other than asterisks are kept in order |
| LooseParser.StripBoldExample | TERRAWIZE/expertosy_web/frontend/src/components/QuestionnairePage.tsx:165-167 | `a**b` becomes `ab` |
| LooseParser.MatchChoiceIsRegex | TERRAWIZE/expertosy_web/frontend/src/components/QuestionnairePage.tsx:173-175 | a line is an option exactly when `/^([A-D]\))\s*(.+)$/` matches it, and the option is the rest of the line, trimmed |
| LooseParser.ChoiceTexts | TERRAWIZE/expertosy_web/frontend/src/components/QuestionnairePage.tsx:170-181 | option texts are non-empty and pairwise distinct |
| LooseParser.ChoiceTextsMembers | TERRAWIZE/expertosy_web/frontend/src/components/QuestionnairePage.tsx:173-181 | the option texts are exactly the non-empty texts some option line yields |
| LooseParser.RepeatedChoiceDropped | TERRAWIZE/expertosy_web/frontend/src/components/QuestionnairePage.tsx:180-181 | an option seen before adds nothing |
| LooseParser.NewChoiceAppended | TERRAWIZE/expertosy_web/frontend/src/components/QuestionnairePage.tsx:180-181 | a new option is appended after the earlier ones |
| LooseParser.SplitChoice | TERRAWIZE/expertosy_web/frontend/src/components/QuestionnairePage.tsx:184-189 | the text is the trimmed part before the first separator and holds no separator; the description is absent or non-empty, trimmed and free of separators; the icon follows the text |
| LooseParser.DescriptionOfNone | TERRAWIZE/expertosy_web/frontend/src/components/QuestionnairePage.tsx:184-189 | the description is absent exactly when every piece after the first is blank |
| LooseParser.SplitChoiceNoDescription | TERRAWIZE/expertosy_web/frontend/src/components/QuestionnairePage.tsx:184-189 | the description is absent exactly when only blanks and separators follow the first separator, or there is no separator |
| LooseParser.SplitChoiceTwoPieces | TERRAWIZE/expertosy_web/frontend/src/components/QuestionnairePage.tsx:184-189 | two pieces give the trimmed first as the text and the trimmed second as the description |
| LooseParser.SplitChoiceThreePieces | TERRAWIZE/expertosy_web/frontend/src/components/QuestionnairePage.tsx:184-189 | with three pieces, the later two are trimmed and joined by one space into the description |
| LooseParser.SplitChoiceTextColon | TERRAWIZE/expertosy_web/frontend/src/components/QuestionnairePage.tsx:184-189 | `text: description` splits back into its two parts |
| LooseParser.HyphenSplitsWord | TERRAWIZE/expertosy_web/frontend/src/components/QuestionnairePage.tsx:184 | a hyphen inside a word splits it: `Ultra-portable` gives the text `Ultra` and the description `portable` |
| LooseParser.ParseSection | TERRAWIZE/expertosy_web/frontend/src/components/QuestionnairePage.tsx:152-203 | a section is accepted exactly when it is not boilerplate, its prompt is non-empty and it has at least two options; category and help text come from the prompt |
| LooseParser.ParseSectionShape | TERRAWIZE/expertosy_web/frontend/src/components/QuestionnairePage.tsx:152-203 | boilerplate yields nothing; an accepted question has a prompt and at least two options |
| LooseParser.Parse | TERRAWIZE/expertosy_web/frontend/src/components/QuestionnairePage.tsx:133-216 | an empty text, a text with no sections and a text with no questions are the three errors; otherwise the result is the questions of the sections in order, and there is at least one |
| LooseParser.ParsedQuestionsShape | TERRAWIZE/expertosy_web/frontend/src/components/QuestionnairePage.tsx:196-203 | every returned question has a prompt and at least two options |
| LooseParser.SectionsIndependent | TERRAWIZE/expertosy_web/frontend/src/components/QuestionnairePage.tsx:152-204 | for a list of sections cut into two parts, the questions are those of the first part followed by those of the second: each section is parsed on its own |
| LooseParser.BoilerplateContributesNothing | TERRAWIZE/expertosy_web/frontend/src/components/QuestionnairePage.tsx:152-157 | sections containing "Thank you", "### Comprehensive" or "Please select" contribute no question |
| LooseParser.OnlyBoilerplateRejected | TERRAWIZE/expertosy_web/frontend/src/components/QuestionnairePage.tsx:206-208 | a non-empty text whose sections are all boilerplate is an error, not an empty questionnaire |
| Factors.FactorQuestions | TERRAWIZE/expertosy_web/frontend/src/components/QuestionnairePage.tsx:100-110 | one question per factor, in order, each with the four-step importance scale and the factor's category and help text |
| Factors.PromptsAreFactors | TERRAWIZE/expertosy_web/frontend/src/components/QuestionnairePage.tsx:100-110 | the prompts of the factor questionnaire are the factors |
| Factors.FactorQuestionsAppend | TERRAWIZE/expertosy_web/frontend/src/components/QuestionnairePage.tsx:100-110 | the expansion works factor by factor |
| Factors.ScaleShape | TERRAWIZE/expertosy_web/frontend/src/components/QuestionnairePage.tsx:102-107 | the scale has four distinct steps, each with a description |
| Factors.Setup | TERRAWIZE/expertosy_web/frontend/src/components/QuestionnairePage.tsx:98-115 | setup fails exactly when the factors are not a list, and otherwise asks exactly the factors |
| HeaderParser.OptionValueIsRegex | TERRAWIZE/expertosy_web/frontend/expertosy-web/src/components/QuestionnairePage.tsx:81-87 | a labelled line gives an option exactly when `(.+)` can start after the label; the value is blank exactly when only blanks follow |
| HeaderParser.ParseSection | TERRAWIZE/expertosy_web/frontend/expertosy-web/src/components/QuestionnairePage.tsx:74-95 | the question is the first line with asterisks removed and trimmed; the options are the values of all option lines in order; the section is kept iff the question is non-empty and there is an option |
| HeaderParser.Parse | TERRAWIZE/expertosy_web/frontend/expertosy-web/src/components/QuestionnairePage.tsx:66-100 | every question has text and at least one option, with at most one per header |
| HeaderParser.PreambleIgnored | TERRAWIZE/expertosy_web/frontend/expertosy-web/src/components/QuestionnairePage.tsx:70-73 | text in which no `#… N.` header starts, put before a questionnaire, changes nothing: `slice(1)` drops exactly that preamble |
| HeaderParser.PreambleWithoutHashIgnored | TERRAWIZE/expertosy_web/frontend/expertosy-web/src/components/QuestionnairePage.tsx:70-73 | in particular a preamble without `#` changes nothing |
| HeaderParser.SectionsIndependent | TERRAWIZE/expertosy_web/frontend/expertosy-web/src/components/QuestionnairePage.tsx:73-96 | for a list of sections cut into two parts, the questions are those of the first part followed by those of the second: each section is parsed on its own |
| HeaderParser.RepeatedOptionLinesKept | TERRAWIZE/expertosy_web/frontend/expertosy-web/src/components/QuestionnairePage.tsx:80-87 | options are neither de-duplicated nor capped |
| Cli.Classify | TERRAWIZE/app.py:379-395 | a blank stripped line is ignored; a `Q:` line (any case) carries its stripped rest; an option line carries its text with the number, dot and blanks removed |
| Cli.ParseQuestionnaire | TERRAWIZE/app.py:366-403 | the loop computes the block reading: one question per `Q:` line, holding the non-empty options up to the next `Q:`, kept when both the text and the options are non-empty |
| Cli.FoldIsBlocks | TERRAWIZE/app.py:378-401 | from any loop state, the result is what is done, then the current question with the options up to the next `Q:`, then the blocks from there |
| Cli.ParseIsBlocks | TERRAWIZE/app.py:366-403 | the parser's loop and the block reading agree on every input |
| Cli.BlocksShape | TERRAWIZE/app.py:385-401 | every question has non-empty text and at least one option, and there are at most as many questions as `Q:` lines |
| Cli.LeadingLinesDiscarded | TERRAWIZE/app.py:385-391 | lines before the first `Q:` change nothing |
| Cli.IgnoredLineRemovable | TERRAWIZE/app.py:378-395 | removing a blank or unrecognised line, or an option line with no text, changes nothing |
| Cli.Put | TERRAWIZE/app.py:455 | storing an answer sets that question's value and leaves every other question's unchanged; an existing key keeps its place and a new key goes last |
| Cli.Choose | TERRAWIZE/app.py:449-460 | a choice is accepted iff it is a number from 1 to the number of options, and it stores the chosen option under the question; anything else is an error and stores nothing |
| Cli.Interview | TERRAWIZE/app.py:443-460 | every stored answer was there before or is an offered option of a question with that text |
| Cli.InterviewAnswersAll | TERRAWIZE/app.py:443-460 | a completed interview has an answer for every question |
| Cli.PreferenceLines | TERRAWIZE/app.py:464-470 | the preference text reads as the header line and then one `question: answer` line per answer, in insertion order |
| ProductCards.ParseCard | TERRAWIZE/expertosy_web/frontend/expertosy-web/src/components/RankingQuestionnaire.tsx:163-166 | the card fails exactly when the part before ` - ` has no `.`; the number is what precedes the first `.`; the name is the trimmed text between the first and second `.`; the price is the text between the first and second ` - `, present iff the product has ` - ` |
| ProductCards.PriceOf | TERRAWIZE/expertosy_web/frontend/expertosy-web/src/components/RankingQuestionnaire.tsx:164 | the price is absent iff there is no ` - `; otherwise it is exactly the text after the first ` - ` up to the next one |
| ProductCards.NumberAndName | TERRAWIZE/expertosy_web/frontend/expertosy-web/src/components/RankingQuestionnaire.tsx:165-166 | there is a number iff the name part has a `.`; the number is the text before the first `.` and the name the text after it up to the next `.` |
| ProductCards.DotInNameCuts | TERRAWIZE/expertosy_web/frontend/expertosy-web/src/components/RankingQuestionnaire.tsx:166 | a `.` inside a product name cuts the name there: `N. name.more - price` shows `name` |
| ProductCards.ParseFormatted | TERRAWIZE/expertosy_web/frontend/expertosy-web/src/components/RankingQuestionnaire.tsx:163-166 | `N. Name - Price` parses back to its number, name and price |
| ProductCards.NoDotFails | TERRAWIZE/expertosy_web/frontend/src/components/RankingQuestionnaire.tsx:199-202 | a product string without any `.` cannot be shown |
| ProductCards.Columns | TERRAWIZE/expertosy_web/frontend/expertosy-web/src/components/RankingQuestionnaire.tsx:219-229 | the left column has at most five cards, and the right column is non-empty only when the left is full; together, in order, they list every product with its own index |
| ProductCards.ColumnsPartition | TERRAWIZE/expertosy_web/frontend/expertosy-web/src/components/RankingQuestionnaire.tsx:219-229 | each product is in exactly one column: the left when its index is below five, the right otherwise |
| Wizard.Select | TERRAWIZE/expertosy_web/frontend/src/components/RankingQuestionnaire.tsx:157-173 | selecting records the option under the current prompt and leaves every other answer as it was; it advances by one unless on the last question, where it submits |
| Wizard.Previous | TERRAWIZE/expertosy_web/frontend/src/components/QuestionnairePage.tsx:268-273 | going back is possible only after the first question; it decrements the index and keeps the answers |
| Wizard.SelectThenPrevious | TERRAWIZE/expertosy_web/frontend/src/components/QuestionnairePage.tsx:250-273 | going back after a choice returns to the same question with the answer kept |
| Wizard.ReselectOverwrites | TERRAWIZE/expertosy_web/frontend/expertosy-web/src/components/QuestionnairePage.tsx:102-115 | answering the same question again keeps only the latest choice |
| Wizard.Drive | TERRAWIZE/expertosy_web/frontend/expertosy-web/src/components/RankingQuestionnaire.tsx:131-147 | answering every question in turn submits answers whose keys are exactly the earlier ones and all the prompts |
| Wizard.DriveRecordsChoices | TERRAWIZE/expertosy_web/frontend/src/components/QuestionnairePage.tsx:250-266 | with distinct prompts, the submitted answers hold each question's own choice |
| Wizard.ProgressOf | TERRAWIZE/expertosy_web/frontend/src/components/RankingQuestionnaire.tsx:327 | "last question" is shown exactly on the last index; otherwise it shows the number of questions left, which is positive, and "questions" is plural unless that number is one |
| Wizard.LastQuestionSubmits | TERRAWIZE/expertosy_web/frontend/src/components/RankingQuestionnaire.tsx:352-355 | "last question" is shown exactly when the next choice submits |
| Wizard.Recommend | TERRAWIZE/expertosy_web/frontend/src/components/QuestionnairePage.tsx:275-301 | a failed request or a missing recommendation shows the fixed error message; otherwise the products are exactly the non-blank lines of the recommendation, in order |
| Wizard.NonBlank | TERRAWIZE/expertosy_web/frontend/src/components/QuestionnairePage.tsx:287 | the kept lines are exactly the lines that are not blank |
| Wizard.NonBlankAppend | TERRAWIZE/expertosy_web/frontend/src/components/QuestionnairePage.tsx:287 | dropping blank lines works line by line and keeps the order |
| Wizard.RecommendedProducts | TERRAWIZE/expertosy_web/frontend/src/components/QuestionnairePage.tsx:285-287 | a recommendation written one entry per line gives those entries with the blank ones dropped |
| Wizard.RecommendedProductsAll | TERRAWIZE/expertosy_web/frontend/src/components/QuestionnairePage.tsx:285-287 | when no line is blank, every line is a product |
| Wizard.SubmitRanking | TERRAWIZE/expertosy_web/frontend/src/components/RankingQuestionnaire.tsx:175-197 | the ranking completes iff the reply has `ranked_products`, even an empty array; anything else empties the questionnaire, which shows the error screen |
| Wizard.SubmitRankingUnchecked | TERRAWIZE/expertosy_web/frontend/expertosy-web/src/components/RankingQuestionnaire.tsx:149-161 | the older ranking page passes on whatever the reply holds, even a missing field, and does nothing on a failed request |
| Wizard.CompleteRanking | TERRAWIZE/expertosy_web/frontend/src/components/QuestionnairePage.tsx:303-320 | an empty ranking is an error; otherwise the results carry the ranking and, for every question in order, its prompt and the answer stored under it, if any |
| Wizard.AnsweredRankingReachesResults | TERRAWIZE/expertosy_web/frontend/src/components/QuestionnairePage.tsx:303-320 | after every question is answered, a delivered non-empty ranking reaches the results page with an answer for every question |
| Wizard.SelectAsWritten | TERRAWIZE/expertosy_web/frontend/src/components/RankingQuestionnaire.tsx:157-173 | as the components run it, advancing is as intended, but the submission sends the answers from before the last choice |
| Wizard.LastAnswerLost | TERRAWIZE/expertosy_web/frontend/src/components/RankingQuestionnaire.tsx:167-172 | with one question, the submission as written sends no answer, while the corrected step sends the one given |
| Wizard.HeaderSelectAsWritten | TERRAWIZE/expertosy_web/frontend/expertosy-web/src/components/QuestionnairePage.tsx:102-107 | as written on the header-parser page, every choice is stored under the key `undefined` with an undefined value |
| Wizard.HeaderAnswersCollapse | TERRAWIZE/expertosy_web/frontend/expertosy-web/src/components/QuestionnairePage.tsx:102-107 | two different questions answered leave one entry, keyed by neither and holding no answer |
| Wizard.HeaderAnswersKept | TERRAWIZE/expertosy_web/frontend/expertosy-web/src/components/QuestionnairePage.tsx:88-115 | keyed by each question's own text, every answer survives: with distinct texts, each question's answer is its choice |

## Left out

- Rendering, animation and timing are not modelled. That covers JSX, framer-motion variants, `showQuestion` flags, the 300 ms and 1500 ms delays, loading-stage texts and the `mounted` liveness flags. The model takes the order of events as given.
- Network calls are not modelled (axios, `api.post`, the Flask routes and the OpenAI calls). Their replies are parameters: `RecommendReply` and `RankReply`.
- The navigation and `alert` after the older page's recommendation request are not modelled, because they are pure browser effects.
- `Math.random` card rotations and the floating-point progress percentage are not modelled. The integer count of remaining questions is modelled instead.
- The CLI's reading of input is not modelled.
  - `input()` and `int()`: each typed answer is given as a number, or `None` where `int()` raises `ValueError`. The parsing of signs, underscores and surrounding blanks inside `int()` is not modelled.
  - End of input: `Interview` returns `None` when the answers run out.
- Printing is not modelled.
- `save_results_to_files`, the backend `app.py`, `config/api.ts`, `services/api.ts` and `locationService.ts` are not part of this model.
- Unicode whitespace, Unicode case mapping and U+2028/U+2029 as line terminators are not modelled. Only the ASCII sets above are used.
- React state batching is not modelled. The stale `userAnswers` read at submission appears as a Finding instead.
- RankingParser.Parse: its own contract gives only the shape of the result (four options, a `?` in each prompt, at most one question per section). The exact questions are stated by ParseSection per section, and by ParseRendered for text written in the requested format.
- HeaderParser.Parse: its own contract likewise gives only the shape. The exact questions are stated by ParseSection per section.
- RankingParser.Render writes option labels `A`, `B`, … wrapping after `Z`. It is only used to state the round trip for questionnaires of four options.
- Cli.Interview: the answers to one question are consumed until one is accepted. That is the `while True` loop; re-prompting text is not modelled.

## Findings

| source | as written | input that shows it | evidently intended | confidence | as-written member | corrected member |
|---|---|---|---|---|---|---|
| TERRAWIZE/expertosy_web/frontend/src/components/RankingQuestionnaire.tsx:167-172 | the submission on the last choice runs inside a callback created by the same render as `handleOptionSelect`, so it reads `userAnswers` from before `setUserAnswers` records the last choice | a one-question questionnaire: the request carries `{}` | submit the answers including the last choice | medium, not executed; the same pattern appears in TERRAWIZE/expertosy_web/frontend/src/components/QuestionnairePage.tsx:262-283 and TERRAWIZE/expertosy_web/frontend/expertosy-web/src/components/QuestionnairePage.tsx:102-115 | Wizard.SelectAsWritten (counterexample Wizard.LastAnswerLost) | Wizard.Select (Wizard.DriveRecordsChoices) |
| TERRAWIZE/expertosy_web/frontend/expertosy-web/src/components/QuestionnairePage.tsx:102-107 | questions are built as `{text, options}` with plain string options (lines 90-95), but the page keys answers by `currentQuestion.question` and passes `option.text`, both `undefined` | any two questions answered: `userAnswers` is `{undefined: undefined}` | key each answer by the question's text, with the chosen option as the value | high, not executed | Wizard.HeaderSelectAsWritten (counterexample Wizard.HeaderAnswersCollapse) | Wizard.Select over Wizard.HeaderPrompts (Wizard.HeaderAnswersKept) |
