# SECOP II search page: filter compiler

The search page of this service (`app.py`) turns three loosely validated query
parameters into a SoQL (Socrata Query Language) request against the public
procurement dataset. The parameters are a comma-separated list of category codes
(`codigos`), a comma-separated list of procedure statuses (`estado`) and a sort
key (`orden`). A 1-based `page` comes with them. This project models that
compiler in Dafny and proves what it promises.

- `text.dfy` (module `Text`) holds the Python string operations the compiler
  uses: `split(",")`, `strip()`, `upper()`, `startswith` and `sep.join`.
- `soql.dfy` (module `Soql`) holds `soql_escape` and the rendering of a quoted
  `IN (...)` list. It also holds a reader for that list. The reader is a
  reference parser for SoQL string literals: `''` is one quote and a lone `'`
  closes the literal. The round-trip lemmas show that a rendered clause reads
  back as exactly the user's tokens, so no token can close its literal early.
- `filters.dfy` (module `Filters`) holds the category-code clause and the
  status clause. The code clause is a loop that appends to a list, so it is a
  method proved against a specification function. The status clause is a
  comprehension, so it is a function.
- `query.dfy` (module `Query`) holds the sort-order table with its fallback,
  the pagination, the gate that issues no query without a condition, the
  `" AND "` join, and the rule that only a 200 answer fills the page.

The HTTP call is a parameter of `Query.Home`: a function from the query
parameters to a status code and a sequence of rows.

## Model

| member | source | states |
|---|---|---|
| Text.Split | app.py:31 | `split(",")` gives one more piece than there are commas, and no piece holds a comma |
| Text.JoinSplit | app.py:31 | joining the pieces of a split with the separator gives the input back, so splitting loses no character |
| Text.SplitNoSep | app.py:31 | a text without the separator splits into itself alone |
| Text.Strip | app.py:32 | `strip()` is empty exactly when the text is all whitespace; otherwise it neither starts nor ends with whitespace |
| Text.StripSlice | app.py:32 | what `strip()` keeps is the slice of the text between a blank prefix and a blank suffix; with the end conditions of `Text.Strip` this fixes the result |
| Text.StripTrimmed | app.py:32 | `strip()` leaves a text that neither starts nor ends with whitespace unchanged |
| Text.Upper | app.py:46 | `upper()` keeps the length, lowers the code of every ASCII lower-case letter by 32 and keeps every other character |
| Text.UpperSpec | app.py:46 | `upper()` keeps the length, leaves no lower-case letter, keeps quotes where they were, and is idempotent |
| Text.StartsWithSpec | app.py:35 | `startswith(prefix)` holds exactly when the text is the prefix followed by something, and that something is what follows the prefix |
| Text.Join | app.py:62 | joining no parts gives the empty text and joining one part gives that part |
| Text.JoinCons | app.py:39-62 | joining two or more parts gives the first, the separator, then the join of the rest, so the result starts with the first part |
| Soql.Escape | app.py:11-12 | the escaped text is the input's length plus one per quote, is the input itself when there is no quote, and has every quote in an adjacent pair |
| Soql.UnescapeEscape | app.py:11-12 | collapsing `''` back to `'` returns the original value |
| Soql.EscapeUnescape | app.py:11-12 | every text whose quotes are all paired is the escape of some value |
| Soql.EscapeIdentity | app.py:11-12 | escaping changes a value exactly when it holds a quote |
| Soql.Quoted | app.py:39 | a quoted token is the token with one quote before and one after, two characters longer |
| Soql.InListCons | app.py:39 | a one-token list is that token quoted; a longer list is the first token quoted, a comma and a space, then the list of the rest |
| Soql.InClause | app.py:40-48 | a clause starts with `<field> IN (`, ends with `)` and holds exactly the rendered list in between |
| Soql.ReadEscaped | app.py:39 | an escaped value followed by a quote is a closed literal holding exactly that value |
| Soql.ReadRendered | app.py:39 | the rendered `'..', '..'` list of escaped tokens reads back as exactly the tokens, in order |
| Soql.ClauseRoundTrip | app.py:37-40 | a rendered `<field> IN (...)` clause reads back as its tokens and ends where it was closed, whatever text follows |
| Filters.Kept | app.py:44 | the kept tokens are no more than the pieces, and none is empty |
| Filters.KeptOne | app.py:32-34 | a piece contributes nothing exactly when it is blank, otherwise one token |
| Filters.KeptAppend | app.py:31-34 | keeping distributes over concatenation, so kept tokens stay in input order |
| Filters.KeptMembers | app.py:32-34 | a token is kept exactly when it is the non-empty trimmed form of some piece |
| Filters.KeptBlank | app.py:33-34 | a blank piece anywhere in the input contributes nothing |
| Filters.Normalize | app.py:35-36 | a normalized code starts with `V1.`, is the token or `V1.` plus the token, and is the token itself when that already starts with `V1.` |
| Filters.NormalizeIdempotent | app.py:35-36 | adding the prefix twice is the same as adding it once |
| Filters.CodeTokens | app.py:31-36 | one code per kept piece, in order, each starting with `V1.`: the trimmed piece itself when it already starts with `V1.`, otherwise `V1.` followed by it |
| Filters.CollectCodes | app.py:30-37 | the loop collects exactly the escaped normalized codes of the kept pieces, in order |
| Filters.AddCodeClause | app.py:29-40 | the category block appends to the conditions exactly the category clause, or nothing |
| Filters.CodeCondition | app.py:29-40 | at most one category clause is produced |
| Filters.CodeConditionSpec | app.py:29-40 | the category clause exists exactly when a code survives, and then reads back as exactly those codes |
| Filters.StatusTokens | app.py:44-46 | one status per kept piece, in order, each the piece with every letter upper-cased |
| Filters.AddStatusClause | app.py:43-48 | the status block appends to the conditions exactly the status clause, or nothing |
| Filters.StatusCondition | app.py:43-48 | at most one status clause is produced |
| Filters.StatusConditionSpec | app.py:43-48 | the status clause exists exactly when a status survives, and then reads back as exactly those upper-cased statuses |
| Filters.SingleToken | app.py:31-34 | a parameter without commas or surrounding blanks is a single token |
| Filters.EmptySlotDropped | app.py:31-37 | `a,,b` yields exactly `V1.a` and `V1.b`, in that order |
| Filters.BareCodeExample | app.py:35-36 | `47131504` becomes `V1.47131504` |
| Filters.PrefixedCodeExample | app.py:35-36 | `V1.47131504` is kept unchanged |
| Filters.KeptNone | app.py:32-34 | pieces that are all empty or blank keep nothing |
| Filters.BlankPieces | app.py:29-48 | a parameter whose comma-separated pieces are all empty or blank yields neither a category clause nor a status clause |
| Filters.BlankParameter | app.py:29-48 | in particular an empty or all-blank parameter yields no clause |
| Filters.StatusExample | app.py:43-48 | `Adjudicado` yields the clause `UPPER(estado_del_procedimiento) IN ('ADJUDICADO')` |
| Query.OrderClause | app.py:51-58 | the order is always one of the table's four entries, and is the entry for the key when the key is known |
| Query.UnknownOrderIsRecent | app.py:58 | an unknown key sorts like `recientes`, by publication date descending |
| Query.Offset | app.py:23-24 | the offset is non-negative, a multiple of the page size 10, and counts the rows of the `page - 1` earlier pages |
| Query.PagesAdjacent | app.py:23-24 | consecutive pages are adjacent windows of 10 rows |
| Query.Conditions | app.py:26-48 | the conditions are the category clause, if any, followed by the status clause, if any: at most two, codes first |
| Query.Compile | app.py:60-66 | a query exists exactly when some code or some status survives, and then has limit 10, the page's offset and the resolved order |
| Query.StatusIsNotCode | app.py:40-48 | a status clause is never read as a category clause |
| Query.WhereRoundTrip | app.py:29-62 | the `$where` text reads back as exactly the surviving codes followed by the surviving statuses |
| Query.Issue | app.py:60-69 | with some condition, the request carries their ` AND ` join, the paging and the order, and the rows are kept only on status 200; with none, nothing is sent and the rows are empty |
| Query.Home | app.py:22-69 | the handler issues exactly the compiled query; with no condition, or with a non-200 answer, the rows are empty, and with a 200 answer they are the answer's rows |

## Left out

- The FastAPI routing, the parameter declarations and the template response
  (app.py:1-7, 14-21, 71-78). `page >= 1`, which the framework enforces, is a
  precondition.
- `requests.get`, its 20-second timeout, transport exceptions, URL encoding of
  the parameters and `resp.json()` (app.py:67-69). The call is a total function
  parameter that returns a status and a sequence of rows.
- Text.Strip: only the ASCII characters for which Python's `isspace()` holds
  count as whitespace; Unicode spaces such as U+00A0 are not trimmed.
- Text.Upper: only ASCII letters are upper-cased. Python's full Unicode case
  mapping, which can change the length (`ß` becomes `SS`), is not modelled.
- Query.Home: it also returns the query passed to the HTTP function. The
  source has no such value; it is there so the contract can name the query
  that was issued.
- `app.py` has no keyword search, no spreadsheet export and no retry of a
  failed request; its sort keys are the Spanish ones of the order table and
  its page size is 10. The model has none of these features either and
  uses the same keys and page size.
