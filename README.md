# Expense bot: parser, categoriser and summary

A model of the logic of a Discord bot that records expenses in a Google Sheet. Three modules:

- `Text` covers the JavaScript string behaviour the bot relies on:
  - the `\s`, `\d` and `.` classes of its regular expressions;
  - `trim`, `includes` and `startsWith`;
  - `toLowerCase`, as far as it decides whether an ASCII word occurs.
- `Expenses` covers the main file:
  - the four ordered `expensePatterns`, each written out as a matcher that follows the backtracking order of JavaScript regular expressions;
  - `parseExpense`, which takes the first pattern that matches;
  - `extractCategory`;
  - the rule that picks which messages are parsed: direct messages, and messages that start with `!expense`, which lose the prefix and are trimmed;
  - the row appended for a parsed expense;
  - the category default of the `/addexpense` command.
- `Summary` covers the pure part of `generateSummary`:
  - the answer for an empty sheet;
  - the period filter;
  - the running total and `byCategory`, built by a loop (`Tally`) that is proved against specification functions;
  - the period label;
  - the category lines sorted by amount, largest first.

Amounts are exact decimals (`real`). `parseFloat` of a captured number is the decimal that number denotes.

The key order of `byCategory` is the order in which keys were first added. The model tracks it as a sequence beside the map.

Whether a row's date falls in today, this week or this month is a parameter `inPeriod`.

The summary message is modelled as its parts (`Report`): the heading, the total and the category lines in the order they are written.

## Model

| member | source | states |
|---|---|---|
| Text.Trim | index.js:72 | the result has no space at either end and is a slice of the input with only spaces on both sides of it |
| Text.Contains | index.js:89 | `includes` holds exactly when the needle occurs at some index |
| Text.StartsWith | index.js:139 | `startsWith` holds exactly when the string is the prefix followed by some rest |
| Text.Lower | index.js:85 | lower-casing never shortens a string |
| Text.LowerAsciiCapital | index.js:85 | an ASCII capital becomes the lower-case letter 32 code points further on |
| Text.LowerUnchanged | index.js:85 | a string without ASCII capitals, KELVIN SIGN and LATIN CAPITAL LETTER I WITH DOT ABOVE is its own lower case |
| Text.LowerAppend | index.js:85 | lower-casing works character by character: the lower case of a concatenation is the concatenation of the lower cases |
| Text.LowerIdempotent | index.js:85 | lower-casing an already lower-cased description changes nothing |
| Text.LowerIgnoresAsciiCase | index.js:85 | lower-casing forgets the case of ASCII letters |
| Expenses.NumberEnd | index.js:44 | `\d+(?:\.\d+)?` fails exactly when no digit is at the start; otherwise it takes the longest numeral there: no longer slice is a numeral, and no digit follows |
| Expenses.NumberEndExact | index.js:44 | a numeral followed by a character that is neither a digit nor '.' is exactly what the number group takes |
| Expenses.NumeralValue | index.js:71 | `parseFloat` of a captured number is non-negative; for digits alone it is their decimal value |
| Expenses.NumeralValueParts | index.js:71 | for a number with a '.', the digits before it are the whole part of the value and the digits after it add a fraction in [0, 1) |
| Expenses.NumeralTrailingZero | index.js:71 | a zero appended after the decimals does not change the value ("12.50" reads as "12.5") |
| Expenses.DecimalExample | index.js:71 | "25.99" reads as 25.99 |
| Expenses.SpacesThenRest | index.js:44 | `\s+(.+)$` fails exactly when no split of the rest into spaces and one nonempty last line exists; on success the greedy `\s+` keeps the last such split |
| Expenses.NumberThenRest | index.js:44 | a match is a split into a numeral, spaces and one nonempty line to the end, with the last possible start for the second group |
| Expenses.NumberThenRestComplete | index.js:44 | whenever such a split exists, the groups match at that position with the split's numeral |
| Expenses.Pattern1 | index.js:44 | a match is such a split of the input after an optional leading '$', with the last possible start for the description |
| Expenses.Pattern1Complete | index.js:44 | whenever the input splits so after an optional '$', the first pattern matches with that numeral |
| Expenses.SpacesThenLine | index.js:47 | `\s+(.+)` fails exactly when no run of spaces is followed by a character `.` matches; on success the greedy `\s+` keeps the last such run |
| Expenses.AmountOnText | index.js:47 | a match of `(amount)\s+(?:on\|for)\s+(.+)` is a numeral, spaces, "on" or "for" in any ASCII case, spaces, and the rest of that line from the last possible start |
| Expenses.AmountOnTextComplete | index.js:47 | whenever the text starts so, the match exists and captures that numeral |
| Expenses.SpentAt | index.js:47 | a match at a position is "spent" in any ASCII case, spaces, at most one '$', then a match of the amount-on-description part, whose groups it captures |
| Expenses.SpentAtComplete | index.js:47 | whenever "spent", spaces, at most one '$' and such a text follow a position, the pattern matches there with that numeral |
| Expenses.Leftmost | index.js:47 | the unanchored search takes the first position where the pattern matches, and finds none only when none matches |
| Expenses.Pattern2 | index.js:47 | the result is the match at the first position that has one, and none exactly when no position has one |
| Expenses.Pattern3 | index.js:50 | a match is a split of the whole input into a numeral, spaces and one nonempty line, with the last possible start for the description |
| Expenses.Pattern3Complete | index.js:50 | whenever the input splits so, the third pattern matches with that numeral |
| Expenses.AmountToEnd | index.js:53 | `(\d+(?:\.\d+)?)$` matches exactly when a numeral runs to the end of the input |
| Expenses.SpacesThenAmount | index.js:53 | `\s+\$?(number)$` captures a numeral ending the input, after spaces and at most one '$' |
| Expenses.Rightmost | index.js:53 | giving characters back one at a time stops at the longest prefix after which the rest matches |
| Expenses.DescriptionEnd | index.js:53 | the greedy `^(.+)` ends at the last point of the first line after which the rest matches; no later point does |
| Expenses.Pattern4 | index.js:53 | a match of the last pattern captures a numeral in its second group |
| Expenses.Pattern4Sound | index.js:53 | a match of the last pattern splits the input into a nonempty first-line description, a separator, and a number that ends the input |
| Expenses.Pattern4Complete | index.js:53 | whenever such a split exists the last pattern matches, and its description is at least as long as the split's |
| Expenses.MatchPattern | index.js:42-54 | whatever pattern matches, its amount group holds a numeral |
| Expenses.ToExpenseGroups | index.js:62-74 | the amount comes from group 2 and the description from group 1 for the last pattern, the other way round otherwise; the description is trimmed |
| Expenses.FirstMatch | index.js:57-59 | the loop stops at a pattern that matches, and every pattern before it in array order fails |
| Expenses.FirstMatchReaches | index.js:57-59 | patterns that do not match hand the input on, in array order, to the next one |
| Expenses.FirstMatchNone | index.js:57-77 | the loop finds nothing exactly when no remaining pattern matches |
| Expenses.ParseExpense | index.js:57-78 | a parsed expense has a trimmed description and a non-negative amount |
| Expenses.ParseTakesFirstMatch | index.js:58-74 | the first pattern in array order that matches decides the result, with its groups read as the pattern requires |
| Expenses.FirstPatternDecides | index.js:58-74 | whenever the first pattern matches, it decides: the amount is its first group and the description its second, trimmed |
| Expenses.ParseNoneIffNoMatch | index.js:58-77 | the result is `null` exactly when none of the four patterns matches |
| Expenses.Pattern3Subsumed | index.js:44-50 | whenever the third pattern matches, the first matches with the same groups |
| Expenses.Pattern3NeverDecides | index.js:58-60 | the third pattern is never the first one that matches |
| Expenses.DollarExampleParse | index.js:42-78 | "$50 groceries 20" is read by the first pattern as 50 for "groceries 20" |
| Expenses.SpentExampleMatch | index.js:47 | "spent 5 on lunch today" is read as 5 for "lunch today" |
| Expenses.FirstOccurring | index.js:88-92 | the index of the first word that occurs, and none before it occurs |
| Expenses.ContainsAny | index.js:95-99 | a chain of `includes` joined by `\|\|` holds exactly when some word occurs |
| Expenses.ExtractCategory | index.js:81-104 | the result is always one of the ten category names |
| Expenses.NameDecides | index.js:88-92 | the first category name in list order that occurs in the lower-cased description is the result |
| Expenses.NamesBeatKeywords | index.js:88-101 | when any category name occurs, the result is a name that occurs, whatever keywords are present |
| Expenses.KeywordsDecide | index.js:95-103 | with no category name present, the keyword groups are tried in the order food, transport, entertainment, then "other" |
| Expenses.OtherWhenNothingOccurs | index.js:103 | a description with no category name and no keyword gives "other" |
| Expenses.CategoryIgnoresAsciiCase | index.js:85 | the category does not depend on the case of ASCII letters |
| Expenses.StreetFood | index.js:81-92 | "Street food" is lower-cased to a text holding "food", the first category name, so its category is "food" |
| Expenses.ExpenseText | index.js:138-147 | a message is parsed only when it is direct or starts with `!expense`; the prefix is removed and the rest trimmed; a direct message without it is parsed as sent |
| Expenses.CommandTextIsTrimmedRest | index.js:145-147 | `!expense` followed by any text is parsed as that text trimmed |
| Expenses.ExpenseRow | index.js:107-113 | the appended row holds the given date, the expense's amount and description, and the category taken from the description |
| Expenses.HandleMessage | index.js:132-161 | bot messages and messages that are neither direct nor commands are ignored; an unparsable text gets the formats reply; otherwise the row appended is the row of the expense parsed from the selected text |
| Expenses.ResolveCategory | index.js:180-184 | a given nonempty category is kept; a missing or empty one is taken from the description |
| Expenses.AddExpenseRow | index.js:177-194 | the row `/addexpense` appends holds the given date, amount and description, the given category when there is a nonempty one, and otherwise the category taken from the description |
| Expenses.AddExpenseLikeMessage | index.js:177-194 | without a category, or with an empty one, the command appends the same row as a message carrying that expense |
| Expenses.ResolvedCategoryKnown | enhanceFeatures.js:22-35 | a category picked from the command's choices, or none, resolves to one of the ten category names |
| Summary.SummaryPeriod | index.js:207 | a missing or empty period is "all", which is not a dated period |
| Summary.PeriodLabel | enhanceFeatures.js:119-125 | each of today, week and month has its own heading, and every other period is "All Time" |
| Summary.FilterByPeriod | enhanceFeatures.js:86-104 | the kept rows are a subsequence of the sheet's rows and are exactly the rows the period keeps; an undated period keeps them all; if the period keeps no row, nothing is kept |
| Summary.FilterCounts | enhanceFeatures.js:86-104 | every copy of a row the period keeps is kept, and no copy of any other row |
| Summary.CategoryTotalsMeaning | enhanceFeatures.js:107-116 | `byCategory` has a key for exactly the categories of the rows, and each value is the sum of that category's amounts |
| Summary.CategoryOrderMeaning | enhanceFeatures.js:115 | the key order lists each key of `byCategory` exactly once |
| Summary.TotalIsSumOfCategories | enhanceFeatures.js:107-116 | the total equals the sum of the per-category totals |
| Summary.Tally | enhanceFeatures.js:107-116 | the loop computes the sum of the amounts, the per-category totals and the order keys were added in |
| Summary.Entries | enhanceFeatures.js:132 | `Object.entries` pairs each key, in order, with its value |
| Summary.InsertByAmount | enhanceFeatures.js:133 | inserting an entry adds exactly that entry to the lines, placed first or after the first line |
| Summary.InsertSorted | enhanceFeatures.js:133 | inserting into lines sorted by descending amount keeps them sorted |
| Summary.InsertKeepsTies | enhanceFeatures.js:133 | the inserted entry goes before the entries with its amount, whose order is kept |
| Summary.SortByAmount | enhanceFeatures.js:133 | the lines are sorted by descending amount and are a permutation of the entries |
| Summary.SortKeepsTies | enhanceFeatures.js:133 | the sort is stable: entries with equal amounts stay in the order they had |
| Summary.TieExample | enhanceFeatures.js:132-133 | food and rent, both 5, are listed food first, in key order |
| Summary.LinesTotalSort | enhanceFeatures.js:133 | sorting does not change the sum of the amounts |
| Summary.LinesTotalEntries | enhanceFeatures.js:132 | the entries' amounts add up to the sum of the map's values over the keys |
| Summary.SortedEntries | enhanceFeatures.js:132-137 | every line is a pair of `byCategory`, and every pair of `byCategory` is a line |
| Summary.SummaryOf | enhanceFeatures.js:79-139 | the fixed message comes exactly for an empty sheet, with total 0 and no categories; otherwise the message has the period's heading, the returned total, and one line per key of `byCategory` |
| Summary.GenerateSummary | enhanceFeatures.js:71-139 | the summary the method builds with its loop is the one SummaryOf states, so all the lemmas about SummaryOf hold of it |
| Summary.EmptySheet | enhanceFeatures.js:79-82 | an empty sheet gives total 0, no categories and the "No expenses recorded yet." message |
| Summary.NothingInPeriod | enhanceFeatures.js:84-137 | if the period keeps no row of a nonempty sheet, the total is 0, there are no categories, and the message has its heading but no category lines |
| Summary.SummaryTotals | enhanceFeatures.js:106-116 | the total is the sum of the kept rows, `byCategory` has exactly their categories, and each value is that category's sum |
| Summary.SummaryLines | enhanceFeatures.js:118-137 | the message has the period's heading and exactly one line per category with its total; lines run largest first, categories with equal totals in key order, and add up to the total |
| Summary.UndatedPeriodKeepsAll | enhanceFeatures.js:101-102 | an undated period sums every row under "All Time" |

## Left out

- Discord and Google Sheets I/O is not modelled: logging in, reading rows, appending rows, replies, and the `try`/`catch` error replies. The message handler is modelled as the row it appends, or whether it is silent or answers with the formats reply. The `/addexpense` command is modelled as the row it appends. The `/summary` command is modelled as the summary it asks for. No reply text is modelled.
- Whether a message is a direct message (`message.channel.type === 'DM'`) and whether its author is a bot are inputs.
- The date written into a row comes from the clock and is a parameter.
- The date tests for today, this week and this month (`new Date`, `toDateString`, `getDay`, `getMonth`) are a predicate parameter.
- Floating point is not modelled. `parseFloat` is the exact decimal the captured number denotes, and sums are exact. The sheet's amount cell is taken as a number already, so `parseFloat` of an unreadable cell (NaN) is not modelled, nor is `NaN || 0` in the totals.
- The text of the summary message is not modelled: `toFixed`, percentages and emphasis markup. The message is its heading, total and lines in order. The reply text of the message handler is also not modelled.
- Summary.SortByAmount: equal amounts are listed in key order, because `Array.prototype.sort` is stable. The model takes the key order to be insertion order, but `Object.entries` lists integer-like keys first, in ascending order; the model does not capture that.
- Summary.CategoryTotals: `byCategory` is a plain object, and the model treats it as a map from any string. That differs for keys the object inherits:
  - a row in category "__proto__" adds its amount to the total but gives no key;
  - a category such as "constructor" or "toString" starts from the inherited function, so its value becomes a string and `toFixed` throws.

  The bot itself records only names from its ten categories and the `/addexpense` choices, which are none of these.
- Expenses.NumeralValue: the value of a number with a '.' is stated through its whole part, a fraction in [0, 1), trailing zeros and a worked example. It is not stated as the closed form digits / 10^(decimals), which needs nonlinear arithmetic the proofs avoid.
- Rows with missing cells are not modelled. A missing category would become the key "undefined".
- Text and regular expressions work on Unicode scalar values, not UTF-16 code units. Characters outside the Basic Multilingual Plane are never spaces or digits either way.
- Text.Lower: its own contract says only that lower-casing never shortens a string. Text.LowerAsciiCapital states what it does to an ASCII capital, and Text.LowerUnchanged states that text without capitals is unchanged. Text.LowerAppend states that it works character by character.
- Text.LowerChar maps ASCII capitals, KELVIN SIGN and LATIN CAPITAL LETTER I WITH DOT ABOVE. Every other character is left as it is. That is exact for whether an ASCII word occurs in the lower-cased text, which is all `extractCategory` asks of it.
- The help message and the registration of slash commands are not modelled. Only the category choices of `/addexpense` are used.
- Concrete examples are worked out for "$50 groceries 20", "spent 5 on lunch today", the number "25.99", the description "Street food" and a tie in the summary. For other descriptions, which category wins follows from Expenses.NameDecides and Expenses.KeywordsDecide; they are not evaluated.
