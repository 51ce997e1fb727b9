# Quotation generator — a verified model of its core

The Quotation Generator is a single-page Next.js application. A salesperson
uses it to build a quotation: product lines with quantity and rate, a
discount, CGST and SGST at 9% each, the grand total in Indian-English words,
a ship-to address, custom header fields and a "Created By" team member. On
"Generate & Save" it does four things:

- It writes the quotation to Airtable as a record.
- It stores the client's shipping address back on the client.
- It renders the page to a multi-page A4 PDF.
- It numbers the next quotation from the first quotation id of a query sorted on the id's text, descending.

This project models, in Dafny, the parts of that flow that compute
something:

| File | Module | What it models |
|---|---|---|
| `js_builtins.dfy` | `JsBuiltins` | The JavaScript built-ins the core relies on, written out: see the list below. |
| `product_table.dfy` | `ProductTable` | `recalculateTotals` as a method with a loop, checked against the totals function `TotalsOf`. The per-row figures. `products.find`. A `LineTable` class whose rows are `Row` objects, with `addLine`, the mount effect, `removeLine` and `updateLine`. |
| `utils.dfy` | `Utils` | `numberToWords`, on the same zero-padded nine-character text and `(2,2,2,1,2)` grouping the code uses. It is tied to the arithmetic digit groups of the amount. |
| `page.tsx` helpers in `page.dfy` | `QuotationPage` | The page's own logic: see the list below. |
| `next_id.dfy` | `QuotationId` | The next-id route: the configuration guard with its ordered `missing` list, and the successor of the number in the first id of the query's answer. |
| `pdf.dfy` | `PdfLayout` | `containsUnsupportedColor`, and the loop that tiles the captured image over A4 pages. The jsPDF document is a `PdfDoc` class that logs the calls made on it. |

The JavaScript built-ins in `JsBuiltins` are:

- `String.prototype.trim` and `split`.
- `Array.prototype.join`.
- `String(n)`.
- `parseInt`, including the `0x` form.
- `Number(string)`, decimal forms only.
- `padStart`.
- An ASCII `toLowerCase`.
- `includes`.
- JavaScript numbers, as an exact real or NaN.

The page logic in `QuotationPage` covers:

- Splitting a client's shipping address into four fields, and joining the fields back.
- The distinct product record ids.
- The custom-fields note and the terms text.
- The custom-field edits.
- The Team options.
- The `fields` record and the "Created By" guard.
- The PDF file name.

Amounts are exact reals; JavaScript's IEEE rounding is not modelled (see
"Left out"). A value `Number(x) || 0` is modelled with `Num`, where `NaN`
counts as 0.

Behaviour of the code worth knowing, each stated by a lemma:

- **The two-row totals example.** For quantities 2 and 3, rates 100.50 and 50.25 and a 10% discount, the subtotal is 2 · 100.50 + 3 · 50.25 = 351.75. The grand total is 373.5585, so the words read "Three Hundred and Seventy Three Rupees Only". `ProductTable.TwoRowExample` states these figures.
- **Amounts of one billion or more.** `numberToWords` keeps the last nine digits of the padded text, so 1,000,000,005 reads "Five" and 1,000,000,000 reads "". A negative amount whose padded text keeps its minus sign gives "". Amounts written in exponent form (≥ 1e21) give "". See `Utils.WordsAboveBillion`, `Utils.WordsOfSmallNegative` and `Utils.WordsOfHuge`.
- **Double spaces.** The code writes two spaces after a round tens group, so 2,000,000 reads "Twenty  Lakh". `Utils.WordsOfTwentyLakh` states this.
- **The discount percentage** is not clamped. `ProductTable.UnclampedDiscount` states what a negative or over-100 discount does.

## Model

| member | source | states |
|---|---|---|
| `ProductTable.TotalsOf` | components/ProductTable.tsx:66-92 | The totals of `recalculateTotals` as a function of the rows and the discount. `RecalculateTotals` is proved to compute it; `SubtotalAppend`, `NaNRowAddsNothing`, `FiguresRelations`, `EmptyTotals` and `TwoRowExample` state its properties. |
| `ProductTable.RecalculateTotals` | components/ProductTable.tsx:66-92 | The loop over the rows produces exactly `TotalsOf(rows, p)`: the subtotal of `(Number(qty)||0)*(Number(rate)||0)`, the discount, taxable, CGST, SGST, grand total and the words of the floored total followed by " Rupees Only". |
| `ProductTable.SubtotalAppend` | components/ProductTable.tsx:69-71 | The subtotal of two row lists run one after the other is the sum of their subtotals. |
| `ProductTable.NaNRowAddsNothing` | components/ProductTable.tsx:70 | A row whose quantity or rate is NaN or 0 does not change the subtotal, wherever it stands. |
| `ProductTable.FiguresRelations` | components/ProductTable.tsx:73-77 | Discount = subtotal·p/100; taxable = subtotal·(100−p)/100; CGST = SGST = 9% of taxable; total = 1.18·taxable. |
| `ProductTable.UnclampedDiscount` | components/ProductTable.tsx:73-77 | With a positive subtotal, a negative discount makes the discount amount negative and the taxable amount larger than the subtotal. A discount above 100% makes the taxable amount and the total negative. |
| `ProductTable.EmptyTotals` | components/ProductTable.tsx:66-92 | With no rows every figure is 0 and the words are "Zero Rupees Only". |
| `ProductTable.InWords` | components/ProductTable.tsx:79 | The words of the floored grand total, "Zero" when empty, then " Rupees Only". `InWordsOf373` and `EmptyTotals` state its values. |
| `ProductTable.InWordsOf373` | components/ProductTable.tsx:79 | Any total in [373, 374) reads "Three Hundred and Seventy Three Rupees Only". |
| `ProductTable.TwoRowExample` | components/ProductTable.tsx:66-92 | Rows (2 × 100.50, 3 × 50.25) at 10% give 351.75, 35.175, 316.575, 28.49175 twice, 373.5585 and "Three Hundred and Seventy Three Rupees Only". |
| `ProductTable.RowFiguresOf` | components/ProductTable.tsx:127-134 | The per-row amount, CGST, SGST and total, with no discount. `RowTotalsSum` and `RowTotalsMatchIff` relate them to the grand total. |
| `ProductTable.RowTotalsSum` | components/ProductTable.tsx:127-134 | The per-row totals `amount + 9% + 9%` add up to 1.18 times the subtotal. |
| `ProductTable.RowTotalsMatchIff` | components/ProductTable.tsx:127-134 | The per-row totals add up to the grand total if and only if the discount is 0 or the subtotal is 0. |
| `ProductTable.FindProduct` | components/ProductTable.tsx:55 | `products.find`: it returns a product with that id, and none only when no product has it. |
| `ProductTable.FindProductFirst` | components/ProductTable.tsx:55 | The product found is the first one with the id. |
| `ProductTable.Edited` | components/ProductTable.tsx:54-60 | The line after `updateLine(index, field, value)`. `ChosenRateZeroIff`, `FindProductFirst` and `Row.Edit` state what each field does. |
| `ProductTable.ChosenRateZeroIff` | components/ProductTable.tsx:54-57 | Choosing a product sets the rate to 0 exactly when no product has that id or the product's rate is NaN or 0 (`selectedProduct?.rate \|\| 0`). |
| `ProductTable.RemoveAt` | components/ProductTable.tsx:47 | `filter((_, i) => i !== index)`. `RemoveAtSlices`, `RemoveAtIndex`, `RemoveAtLength` and `RemoveAtDistinct` state what it keeps. |
| `ProductTable.RemoveAtSlices` | components/ProductTable.tsx:47 | `filter((_, i) => i !== index)` drops exactly the row at `index`; an index out of range leaves the list as it is. |
| `ProductTable.RemoveAtIndex` | components/ProductTable.tsx:47 | After removing, every remaining row is the original row at the same position, or one further on past the removed index. |
| `ProductTable.RemoveAtLength` | components/ProductTable.tsx:47 | Removing drops the count by one for an index in range and keeps it otherwise. |
| `ProductTable.RemoveAtDistinct` | components/ProductTable.tsx:47 | Removing from a list of distinct row objects leaves distinct row objects. |
| `ProductTable.Values` | components/ProductTable.tsx:53 | The row values read from the row objects, one per object, in order. |
| `ProductTable.ValuesRemoveAt` | components/ProductTable.tsx:46-50 | Removing a row object and then reading the values is the same as reading the values and then removing one. |
| `ProductTable.LineTable.constructor` | components/ProductTable.tsx:35 | The table starts with no rows. |
| `ProductTable.LineTable.AddLine` | components/ProductTable.tsx:42-44 | One fresh row `{productId: "", qty: 1, rate: 0}` is appended; the existing rows are kept. |
| `ProductTable.LineTable.Mount` | components/ProductTable.tsx:37-40 | On mount, an empty table gets one blank row; a non-empty one is left alone. |
| `ProductTable.LineTable.RemoveRow` | components/ProductTable.tsx:46-48 | The row at `index` is removed (nothing happens for an index out of range); the rows stay distinct objects and the other lines are unchanged, in order. |
| `ProductTable.LineTable.RemoveLine` | components/ProductTable.tsx:46-50 | The row at `index` is removed and nothing else changes. The totals returned are those of the new rows. |
| `ProductTable.LineTable.UpdateLine` | components/ProductTable.tsx:52-64 | Only the edited row changes, and in the same row object. A product choice sets the id and the catalogue rate, or 0; a quantity or rate edit stores `Number(value)`. The totals are those of the new rows. |
| `ProductTable.Row.Edit` | components/ProductTable.tsx:54-60 | Editing one field of a row object gives the line `Edited(old line, field, value)`: a product choice sets the id and the catalogue rate (or 0), a quantity or rate edit stores `Number(value)`. |
| `Utils.NumberToWords` | lib/utils.ts:1-55 | `numberToWords` itself: the floored amount as a nine-character zero-padded text, cut into (2,2,2,1,2) groups that are named one by one. `WordsOfNat`, `WordsBelowBillion`, `WordsShape`, `WordsNonEmpty`, `WordsAboveBillion`, `WordsOfSmallNegative`, `WordsOfLargeNegative` and `WordsOfHuge` state its results. |
| `Utils.NineDigitGroups` | lib/utils.ts:40-42 | The five fields of the padded nine-digit text are the crore, lakh, thousand, hundred and last-two-digit groups of the amount. |
| `Utils.PaddedTailOfNat` | lib/utils.ts:40-41 | For an amount below 1e21, `("000000000" + num).substr(-9)` is its last nine digits. |
| `Utils.DigitsWords` | lib/utils.ts:40-55 | Naming the groups of the text is naming the arithmetic groups of the amount. |
| `Utils.WordsOfNat` | lib/utils.ts:1-55 | For 1 ≤ n < 1e21 the words are those of n mod 10^9. |
| `Utils.WordsBelowBillion` | lib/utils.ts:1-55 | For 1 ≤ n < 10^9 the words are the assembled group names. |
| `Utils.GroupsRecompose` | lib/utils.ts:40-42 | The five groups, scaled by 10^7, 10^5, 10^3, 100 and 1, add back up to the amount. |
| `Utils.GroupDigits` | lib/utils.ts:40-42 | An amount written as groups in range has exactly those groups. |
| `Utils.HeadGroupsZero` | lib/utils.ts:47-52 | The four leading groups are all zero exactly when the amount is below 100. |
| `Utils.WordsAboveBillion` | lib/utils.ts:40-55 | From 10^9 up to 1e21 only the last nine digits are named, and a multiple of 10^9 gives "". |
| `Utils.WordsOfSmallNegative` | lib/utils.ts:40-44 | A negative amount above −10^8 keeps its minus sign in the nine characters, so the match fails and the result is "". |
| `Utils.WordsOfLargeNegative` | lib/utils.ts:40-44 | At −10^8 and below, down to −1e21, the minus sign falls off and the words are those of the absolute value. |
| `Utils.WordsOfHuge` | lib/utils.ts:40-44 | At 1e21 and beyond in absolute value, the text is in exponent form and the result is "". |
| `Utils.WordsOfFraction` | lib/utils.ts:2-3 | An amount in [0, 1) floors to 0 and reads "Zero". |
| `Utils.WordsOfZero` | lib/utils.ts:3 | 0 reads "Zero". |
| `Utils.GroupNameShape` | lib/utils.ts:47-52 | A group name is a proper word sequence; a round tens group keeps the trailing space of `b[t] + " " + a[0]`. |
| `Utils.SectionShape` | lib/utils.ts:47-50 | A group with a suffix contributes nothing exactly when it is 0, and otherwise a sequence of words ending in the suffix. |
| `Utils.HeadShape` | lib/utils.ts:47-50 | The text before the last group is empty exactly when the four leading groups are 0. |
| `Utils.AssembleWithRest` | lib/utils.ts:51-55 | After trimming, a non-zero last group is preceded by "and " exactly when some earlier group was named. |
| `Utils.WordsShape` | lib/utils.ts:46-55 | Below 10^9: a multiple of 100 ends with its last suffix word; below 100 it is just the group name; otherwise it is "<head>and <last group>". |
| `Utils.WordsNonEmpty` | lib/utils.ts:46-55 | Every amount from 1 to 10^9 − 1 gives a non-empty sequence of words with no leading or trailing space. |
| `Utils.WordsBelowHundred` | lib/utils.ts:47-55 | Below 100 the words are just the two-digit group name (no "and"). |
| `Utils.WordsByGroups` | lib/utils.ts:46-55 | For any decomposition into groups in range, the words are the assembled group names. |
| `Utils.WordsAroundTwenty` | lib/utils.ts:5-38 | 19, 20 and 21 read "Nineteen", "Twenty" and "Twenty One". |
| `Utils.WordsOfFiveHundred` | lib/utils.ts:50 | 500 reads "Five Hundred". |
| `Utils.WordsOfLakh` | lib/utils.ts:48 | 100000 reads "One Lakh". |
| `Utils.WordsOf373` | lib/utils.ts:50-52 | 373 reads "Three Hundred and Seventy Three". |
| `Utils.WordsOfAllGroups` | lib/utils.ts:46-55 | 123456789 reads "Twelve Crore Thirty Four Lakh Fifty Six Thousand Seven Hundred and Eighty Nine". |
| `Utils.WordsOfTwentyLakh` | lib/utils.ts:48 | 2000000 reads "Twenty  Lakh", with two spaces. |
| `QuotationPage.ExistingAddress` | app/page.tsx:88-89 | `find` decides: the result is the "Shipping Address" of the first client with the selected id, or "" when that client has none; a non-empty result always belongs to such a client, and an unknown client gives "". |
| `QuotationPage.AddressPartsClean` | app/page.tsx:91 | Every part kept from `split(',').map(trim).filter(Boolean)` is non-empty, has no surrounding whitespace and no comma. |
| `QuotationPage.AddressPartsOfEmpty` | app/page.tsx:90-100 | An empty address gives no parts. |
| `QuotationPage.SplitAddress` | app/page.tsx:90-100 | The prefill of the four ship-to fields from the client's address. `SplitAddressParts`, `SplitAddressFields`, `ExtraPartsIgnored` and `SplitOfJoin` state its results. |
| `QuotationPage.SplitAddressParts` | app/page.tsx:90-100 | The four ship-to fields are the first four parts, each padded with "" when missing; an empty address clears all four. |
| `QuotationPage.SplitAddressFields` | app/page.tsx:91-95 | Each field is trimmed and comma-free, and it is "" exactly when the address has fewer parts than its position. |
| `QuotationPage.ExtraPartsIgnored` | app/page.tsx:92-95 | Parts after the fourth do not change the fields. |
| `QuotationPage.SplitOfJoin` | app/page.tsx:91-95 | Saving four clean fields (`join(', ')`) and splitting the saved address again gives the same four fields. |
| `QuotationPage.JoinAddress` | app/page.tsx:142-144 | The address written back to the client. `JoinOfClean`, `JoinOfSplit` and `SplitOfJoin` state its results. |
| `QuotationPage.JoinOfClean` | app/page.tsx:142-144 | Four clean fields are saved as "address, city, state, zip". |
| `QuotationPage.JoinOfSplit` | app/page.tsx:142-144 | Splitting an address and saving it again gives its first four parts joined by ", ". |
| `QuotationPage.FirstFourNonEmpty` | app/page.tsx:143 | `filter(Boolean)` over the four fields keeps the parts that were there, in order. |
| `QuotationPage.JoinFirstFour` | app/page.tsx:142-143 | Trimming and filtering four fields from a split gives back the first four parts. |
| `QuotationPage.DistinctIds` | app/page.tsx:115 | `Array.from(new Set(ids.filter(Boolean)))` holds exactly the non-empty ids, each once. |
| `QuotationPage.DistinctIdsOrder` | app/page.tsx:115 | The ids keep the order of their first occurrence. |
| `QuotationPage.ProductIds` | app/page.tsx:115 | One product id per line, in line order. |
| `QuotationPage.ProductRecordIds` | app/page.tsx:115 | `productRecordIds`: the distinct non-empty product ids of the lines. `DistinctIds`, `DistinctIdsOrder`, `ProductIds` and `HasProductLinks` state its contents. |
| `QuotationPage.HasProductLinks` | app/page.tsx:115-133 | There are product links exactly when some line has a product chosen. |
| `QuotationPage.CustomFieldsNote` | app/page.tsx:117-119 | `customFieldsNote`. `NoteReadsBack`, `NoteAfterAdd`, `NoteSnoc` and `UnnamedField` state its contents. |
| `QuotationPage.NoteLines` | app/page.tsx:118 | One `name \|\| 'Field'`: `value \|\| ''` line per custom field, in order. |
| `QuotationPage.NoteReadsBack` | app/page.tsx:117-119 | The note is empty exactly when there are no custom fields. Otherwise it starts with the custom-fields header, and splitting the rest on newlines gives back the lines, one per field. |
| `QuotationPage.UnnamedField` | app/page.tsx:118 | A field without a name is written as "Field: value". |
| `QuotationPage.Terms` | app/page.tsx:116-120 | The "Notes" text: the trimmed terms followed by the note, trimmed. `TermsWithoutFields` and `StartSave` state how it is used. |
| `QuotationPage.TermsWithoutFields` | app/page.tsx:116-120 | With no custom fields, the notes are the trimmed terms text. |
| `QuotationPage.NoteAfterAdd` | app/page.tsx:117-119 | Adding a field appends "Field Name: Value" to the note: after the header when the list was empty, and on a new line otherwise. |
| `QuotationPage.NoteSnoc` | app/page.tsx:117-119 | Appending any field to the list appends its line to the note in the same way. |
| `QuotationPage.Rename` | app/page.tsx:220 | Renaming changes the name of exactly the fields with that id; nothing else changes. |
| `QuotationPage.SetValue` | app/page.tsx:222 | Editing a value changes the value of exactly the fields with that id. |
| `QuotationPage.RemoveField` | app/page.tsx:223 | `filter(x => x.id !== id)` never grows the list. `RemoveFieldMembers`, `RemoveUnique` and `KeepAll` state what it keeps. |
| `QuotationPage.RemoveFieldMembers` | app/page.tsx:223 | Removing keeps exactly the fields whose id differs. |
| `QuotationPage.RemoveUnique` | app/page.tsx:223 | When ids are unique, removing by id deletes exactly that one position. |
| `QuotationPage.KeepAll` | app/page.tsx:223 | Removing an id nobody has leaves the list unchanged. |
| `QuotationPage.AddField` | app/page.tsx:228 | Adding appends `{id, "Field Name", "Value"}` after the existing fields. |
| `QuotationPage.DisplayName` | app/page.tsx:68 | The name is "Name", else "Employee Name", else "Full Name", else ""; it is "" only when all three are empty. |
| `QuotationPage.TeamOptions` | app/page.tsx:67-70 | There are at most as many options as records, and no option has an empty name. |
| `QuotationPage.TeamOptionsMembers` | app/page.tsx:67-70 | The options are exactly `{id, name}` for the records with a name; every option comes from a record. |
| `QuotationPage.TeamOptionsAppend` | app/page.tsx:67-70 | The options keep the records' order (they distribute over concatenation). |
| `QuotationPage.CreatorOptions` | app/page.tsx:66-71 | The options after the Team records arrive. `CreatorOptionsKept` states when they change. |
| `QuotationPage.CreatorOptionsKept` | app/page.tsx:71 | The current options stay unchanged exactly when the new options equal them or no Team record has a name. |
| `QuotationPage.BuildFields` | app/page.tsx:122-134 | The record has the seven fixed keys with their values ("Created By" only as a one-id link, "Status" = "Draft", "GST" = cgst + sgst). "Client", "Product" and "Notes" are present exactly when there is a client, a product link or notes. |
| `QuotationPage.StartSave` | app/page.tsx:104-134 | Without a "Created By" nothing is built. Otherwise the record holds exactly the seven fixed keys plus "Client", "Product" and "Notes" when there is something to put there: "Quotation ID", the two dates, "Total Cost" = grand total, "GST" = cgst + sgst, "Status" = "Draft", "Created By" = [creator], "Client" = [selected client], "Product" = the distinct product ids (present exactly when a line has a product) and "Notes" = the trimmed terms with the custom-fields note. |
| `QuotationPage.FileName` | app/page.tsx:158 | The PDF file name. `FileNameShape` and `FileNameOfSafe` state its contents. |
| `QuotationPage.FileNameShape` | app/page.tsx:158 | The file name is the quotation number with each of `/ \ ? % * : \| " < >` replaced by '-', then ".pdf"; none of those characters is left. |
| `QuotationPage.FileNameOfSafe` | app/page.tsx:158 | A quotation number without those characters is kept as it is. |
| `QuotationId.MissingList` | app/api/airtable/next-id/route.ts:9-13 | The `missing` list of the 400 reply. `MissingListExact` states its contents. |
| `QuotationId.MissingListExact` | app/api/airtable/next-id/route.ts:9-13 | `missing` names exactly the absent or empty settings, each once, in the order key, base id, table. |
| `QuotationId.CheckConfig` | app/api/airtable/next-id/route.ts:8-15 | A refusal has status 400 and carries the missing list. |
| `QuotationId.BadRequestIffMissing` | app/api/airtable/next-id/route.ts:8-15 | The route refuses exactly when something is missing. |
| `QuotationId.SecondSegment` | app/api/airtable/next-id/route.ts:30 | `split('-')[1]`, when it exists, holds no '-'. |
| `QuotationId.ParseIntNoMinus` | app/api/airtable/next-id/route.ts:30 | `parseInt` of a text with no '-' is never negative. |
| `QuotationId.LastNumber` | app/api/airtable/next-id/route.ts:30-31 | A number is read only when the id has a second segment that starts, after whitespace and an optional '+', with a digit. When that digit does not open a `0x` prefix, a number is always read, and it is the value of the run of digits there. |
| `QuotationId.LastNumberOf` | app/api/airtable/next-id/route.ts:30 | For "prefix-digits…" the number read is the value of the digits. |
| `QuotationId.Successor` | app/api/airtable/next-id/route.ts:31 | The id after number k. `SuccessorShape`, `SuccessorReadsBack` and `After99999` state its contents. |
| `QuotationId.SuccessorShape` | app/api/airtable/next-id/route.ts:31 | "Q-" and then `k + 1` in decimal, zero-padded to at least five digits, never cut. |
| `QuotationId.DefaultIsFirst` | app/api/airtable/next-id/route.ts:26-31 | The default "Q-00001" is the successor of 0. |
| `QuotationId.SuccessorReadsBack` | app/api/airtable/next-id/route.ts:30-31 | Reading the number back from a generated id gives `k + 1`. |
| `QuotationId.NextId` | app/api/airtable/next-id/route.ts:26-33 | The id the route returns. `NextIdIsSuccessor`, `NextIdShape`, `NextIdCountsUp`, `NextIdOfNextId` and `NoFirstId` state its results. |
| `QuotationId.NextIdIsSuccessor` | app/api/airtable/next-id/route.ts:26-33 | The next id is the successor of the number read from the first id, or of 0 when there is no first id or no number in it. |
| `QuotationId.NextIdShape` | app/api/airtable/next-id/route.ts:26-33 | Every next id is "Q-" followed by at least five digits. |
| `QuotationId.NextIdCountsUp` | app/api/airtable/next-id/route.ts:26-33 | The number in the next id is one more than the number read. |
| `QuotationId.NextIdOfNextId` | app/api/airtable/next-id/route.ts:26-33 | Feeding a generated id back in yields the id one further on. |
| `QuotationId.NoDash` | app/api/airtable/next-id/route.ts:30-31 | An id without '-' gives "Q-00001". |
| `QuotationId.NoNumber` | app/api/airtable/next-id/route.ts:30-31 | An id whose second segment does not start with a number gives "Q-00001". |
| `QuotationId.NoFirstId` | app/api/airtable/next-id/route.ts:26-29 | No record, or a record without an id, gives "Q-00001". |
| `QuotationId.After41` | app/api/airtable/next-id/route.ts:26-33 | "Q-00041" is followed by "Q-00042". |
| `QuotationId.After99999` | app/api/airtable/next-id/route.ts:31 | "Q-99999" is followed by "Q-100000" (padding never truncates). |
| `QuotationId.OtherPrefix` | app/api/airtable/next-id/route.ts:30-31 | "INV-7-2024" is followed by "Q-00008": only the second segment counts. |
| `QuotationId.Unreadable` | app/api/airtable/next-id/route.ts:30-31 | "Q-abc" and "Q41" both give "Q-00001". |
| `QuotationId.RepeatsAfter99999` | app/api/airtable/next-id/route.ts:20-31 | In text order "Q-100000" sorts below "Q-99999", so a store holding both, in descending text order, starts with "Q-99999", and the route answers "Q-100000", which is already stored. |
| `QuotationId.MaxNumber` | app/api/airtable/next-id/route.ts:20-31 | No stored id reads a number above the maximum. |
| `QuotationId.NextIdByNumber` | app/api/airtable/next-id/route.ts:20-31 | The next id as the route evidently means it: the successor of the largest number read from any stored id. `NextIdByNumberFresh`, `NextIdByNumberCountsOn` and `ByNumberAfter100000` state its results. |
| `QuotationId.NextIdByNumberFresh` | app/api/airtable/next-id/route.ts:20-31 | The next id taken from the largest stored number is never an id already stored. |
| `QuotationId.NextIdByNumberCountsOn` | app/api/airtable/next-id/route.ts:20-31 | Storing that id and asking again gives the id one further on. |
| `QuotationId.ByNumberAfter100000` | app/api/airtable/next-id/route.ts:20-31 | With "Q-99999" and "Q-100000" stored, the next id by number is "Q-100001". |
| `PdfLayout.ContainsUnsupportedColor` | lib/pdf.ts:4-8 | Only a present, non-empty value can be flagged. |
| `PdfLayout.OklabSubsumed` | lib/pdf.ts:7 | The "oklab(" test adds nothing: the answer is decided by "oklch(", "lab(" and "color(". |
| `PdfLayout.CaseInsensitive` | lib/pdf.ts:6 | A value and its lower-case form are flagged alike. |
| `PdfLayout.UpperCaseLab` | lib/pdf.ts:6-7 | A value holding "LAB(" anywhere is flagged. |
| `PdfLayout.PdfDoc.A4` | lib/pdf.ts:64-66 | A new portrait A4 document measures 595.28 × 841.89 points and has no calls yet. |
| `PdfLayout.PdfDoc.Image` | lib/pdf.ts:75 | `addImage` appends one image call with its position and size. |
| `PdfLayout.PdfDoc.NewPage` | lib/pdf.ts:79 | `addPage` appends one page break. |
| `PdfLayout.Tiling` | lib/pdf.ts:73-83 | The calls that draw n copies. `TilingShape`, `TilingNext` and `TilingSteps` state their form; `DrawTiles` is proved to make them. |
| `PdfLayout.TiledStep` | lib/pdf.ts:78-83 | A page break and the next copy, one step further up, extend a tiling of n − 1 copies to n copies. |
| `PdfLayout.TilingShape` | lib/pdf.ts:73-83 | n copies make 2n − 1 calls: the first image at (20, 20), then for each k ≥ 1 a page break and the image at y = 20 − k·step. |
| `PdfLayout.TilingNext` | lib/pdf.ts:78-83 | One more pass of the loop appends exactly a page break and one image, one step above the last. |
| `PdfLayout.TilingSteps` | lib/pdf.ts:80 | Each copy sits one step (page height − 40) above the copy before it. |
| `PdfLayout.Covers` | lib/pdf.ts:76-83 | n copies cover the image and n − 1 do not. `CoversIsCeil` states that this n is ceil(height / step), so it is unique, and `DrawTiles` that the loop stops there. |
| `PdfLayout.CoversIsCeil` | lib/pdf.ts:76-83 | The number of copies that covers the image is ceil(imageHeight / step), and 1 for an image of height 0 or less. |
| `PdfLayout.TilePages` | lib/pdf.ts:64-83 | A fresh A4 document. The image is scaled to width 555.28 and height 555.28 · canvasHeight / canvasWidth, then drawn on as many pages as cover that height: n copies cover it and n − 1 do not. The calls made are exactly `Tiling(n, …)`. |
| `PdfLayout.DrawTiles` | lib/pdf.ts:72-83 | The drawing loop on an empty document stops after n copies, where n copies cover the image height and n − 1 do not, and its calls are exactly `Tiling(n, …)`. |
| `JsBuiltins.Trim` | lib/utils.ts:55 | `trim()` leaves no whitespace at either end and never grows the text. |
| `JsBuiltins.TrimIsSlice` | lib/utils.ts:55 | `trim()` cuts the text into leading whitespace, the result, and trailing whitespace: the result is a contiguous piece of the text. |
| `JsBuiltins.TrimTwice` | lib/utils.ts:55 | Trimming twice is trimming once. |
| `JsBuiltins.TrimEmptyIff` | app/page.tsx:91 | A text trims to "" exactly when it is all whitespace. |
| `JsBuiltins.TrimKeepsOut` | app/page.tsx:91 | Trimming never introduces a character. |
| `JsBuiltins.JoinSplit` | app/page.tsx:91 | Joining the pieces of `split(c)` with c gives back the text. |
| `JsBuiltins.SplitJoin` | app/page.tsx:91 | Splitting a join of separator-free pieces gives back the pieces. |
| `JsBuiltins.SplitPiecesFree` | app/page.tsx:91 | No piece of `split(c)` contains c. |
| `JsBuiltins.SplitAppend` | app/page.tsx:91 | Splitting x + c + y gives the pieces of x followed by the pieces of y. |
| `JsBuiltins.JoinAppend` | app/page.tsx:144 | Joining two non-empty lists of pieces is joining each and putting the separator between. |
| `JsBuiltins.NatTextValue` | app/api/airtable/next-id/route.ts:31 | `String(n)` for a natural n is a digit string whose value is n. |
| `JsBuiltins.ParseIntDigits` | app/api/airtable/next-id/route.ts:30 | `parseInt` of digits followed by a non-digit reads the value of the digits; the one exception, a lone "0" followed by "x" or "X", selects hexadecimal and is excluded. |
| `JsBuiltins.UnsignedDigits` | app/api/airtable/next-id/route.ts:30 | Digits followed by a non-digit are read in decimal, as the digits' value, unless they are a lone "0" followed by an "x". |
| `JsBuiltins.PadStartZeros` | app/api/airtable/next-id/route.ts:31 | `padStart(n, '0')` adds zeros up to length n and never truncates. |
| `JsBuiltins.PadStartDigits` | app/api/airtable/next-id/route.ts:31 | Zero-padding a digit text gives digits of length max(n, its length), ending in the original text and with the same value. |
| `JsBuiltins.ToLower` | lib/pdf.ts:6 | `toLowerCase()` maps each character, keeping the length. |
| `JsBuiltins.ContainsAt` | lib/pdf.ts:7 | `includes(p)` holds exactly when p occurs at some position. |

## Findings

| source | as written | input that shows it | evidently intended | confidence | as-written member | corrected member |
|---|---|---|---|---|---|---|
| app/api/airtable/next-id/route.ts:20 | The id to continue from is taken as the first record of a descending sort on the text field "Quotation ID". | Store "Q-99999" and then "Q-100000": the text sort puts "Q-99999" first ('9' > '1'), so every later call answers "Q-100000" again. | The successor of the largest number stored, so that ids never repeat. | medium: not executed; it assumes Airtable sorts this text field character by character | `QuotationId.RepeatsAfter99999` | `QuotationId.NextIdByNumberFresh` |

## Left out

- **Floating point.** All amounts are exact reals. JavaScript's IEEE-754 rounding of `subtotal * (discount / 100)`, `* 0.09` and the sums is not modelled, so a total that lands just below a whole number in floating point may floor differently.
- **`Number(x)`** covers decimal text only (an optional sign, digits and a fraction). Exponent, hexadecimal and `Infinity` forms are not modelled; a blank string gives 0, as in JavaScript. A quantity or rate that is already a number is a `Num`.
- **`parseInt`** above 2^53 loses precision in JavaScript. The model reads the exact value.
- **`String(num)`** for |num| ≥ 1e21 uses exponent notation in JavaScript. The model treats every such amount as giving "" (`Utils.WordsOfHuge`) instead of spelling out the exponent text.
- `QuotationId.Successor`: `String(k + 1)` switches to exponent notation once k + 1 reaches 1e21, which the model does not follow: it always writes the decimal digits. It needs a stored id whose number has at least 21 digits.
- **`toLowerCase`** covers ASCII letters only. Unicode case mapping is not modelled.
- **React itself** is not modelled: state hooks, effects, the `queuedTotals` hand-off to `onTotals`, and `onLinesChange`. `RecalculateTotals` returns its totals instead.
- **The date defaults** of the page depend on the clock and are not modelled.
- **Network and outside services are not modelled:**
  - The Airtable client calls (`fetchAirtableData`, `createAirtableRecord`, `updateAirtableRecord`), and the `fetch` and JSON handling in the next-id route.
  - The error reply for a failed Airtable read.
  - The Firebase upload.
  - The attachment patch and its verification fetch.
  - `alert` and the focus on the "Created By" field.
  - The model takes the query's answer (the "Quotation ID"s in descending text order, of which only the first is used), the configuration values and the Team records as parameters.
- **The query's order.** The route's answer is modelled as the ids in descending text order, with only the first one used, as the route does. Past "Q-99999" that order repeats an id (see "Findings"). `NextIdByNumber` states the intended numbering, but it is not what the route computes.
- **The fetch route** (`app/api/airtable/fetch/route.ts`) has the same configuration guard as the next-id route. Only the next-id copy is modelled.
- **`Math.random().toString(36).slice(2)`** for a new custom field's id is a parameter of `AddField`.
- **The capture and rendering side of the PDF is not modelled:** `html2canvas`, the `onclone` restyling of the cloned document (which uses `containsUnsupportedColor`), the PNG data, `pdf.output`, `downloadPdf` and `sharePdf`. The canvas size is a parameter of `TilePages`.
- **The A4 page size** (595.28 × 841.89 points) is jsPDF's own page table, which is not part of this model. It is stated as constants.
- `TilePages`: requires `canvasWidth > 0`. A zero-width canvas gives Infinity or NaN in JavaScript, and with a positive height the loop would never end.
- `ProductTable.LineTable.UpdateLine`: requires `0 <= index < |rows|`. The page only calls it for a row it is showing. In JavaScript an index out of range would throw on `updated[index]`.
- **The page's display formatting** (currency formatting, the PDF preview toggle) is presentation and is not modelled.
