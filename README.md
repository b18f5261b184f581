# SMWMapLens core, modelled in Dafny

SMWMapLens is a VS Code extension for Super Mario World assembly. When the
cursor rests on an address such as `$0010`, `$2100` or `$05FA3C`, it infers
which address space the token names:

- bank 7E RAM;
- bank 00 ROM;
- a hardware register;
- or a full 24-bit address.

It then finds the first range of the matching memory map that holds the
address, and shows that range's description as Markdown. The Markdown has
the description's forum markup rewritten, one link per "details" entry and a
boundary line. A sidebar offers the same lookup for a typed address.

The model covers:

- `prepareMarkdownString`, the description rewriter. Both source files
  carry the same function; it is modelled once, in module `Markup`.
- the `Address` and `AddressRange` records, and the first-match lookup
  `find` over a list of ranges (module `Descriptors`). The sidebar builds its
  `AddressRange` the same way as the hover, so one definition serves both.
- the body of `provideHover`: token extraction, bank inference through the
  fall-through `switch`, lookup, and Markdown rendering (module `Hover`).
- the sidebar's search handler, which keeps its state in `searchResult`,
  and `revive` (module `Sidebar`).

Module `HoverProperties` holds the lemmas about the hover: the banks and
bounds of the addresses a token can name, how the text around an operand is
read, which range a hover shows, and that printed addresses read back.

Module `Numbers` holds the JavaScript number primitives the code relies on:

- `Number.parseInt` with and without radix 16, with NaN;
- `toString(16).toUpperCase()`;
- `padStart`.

Each imperative piece of the source is a method with a loop or a step-by-step
body. It is proved equal to a Dafny function that states what it computes, and the properties the
code promises are lemmas about those functions:

- `Hover.ProvideHover` and its parts `ExtractWord`, `HoverOfToken`,
  `SwitchOnLength`, `LookUp`, `RenderHover` and `CollectLinks`.
- `Sidebar.Normalise`.
- the `Sidebar.SidebarProvider` class.

## Behaviour of the code worth knowing

- A record without a `size` keeps the class default 0, so its range holds nothing.
- `size` is re-read with `Number.parseInt`, so a size that does not parse is NaN, and such a range holds nothing.
- Ranges are searched in the order the map provider returns them; nothing is sorted by size.
- `[code]…[/code]` always becomes a fenced `plaintext` block.
- `[code=…]` and `<code>` are left as they are.
- The description rewrites are exactly the URL, anchor, code and first-newline rewrites; nothing else (user mentions, `[size]`, HTML) is touched.
- A hover shows the description, the detail links and the boundary line, and nothing more; nothing is cached.
- The suffix test on line 90 of `src/extension.ts` does not do what its comment says; see Findings. `Hover.ExtractWord`, `Hover.ProvideHover` and everything built on `Hover.Token` use the corrected test; `Hover.TokenAsWritten`, `Hover.CanonicaliseAsWritten` and `Hover.HoverTextAsWritten` keep the test as written.

## Model

| member | source | states |
|---|---|---|
| Numbers.ParseHexInt | src/extension.ts:40 | `Number.parseInt(s, 16)` is NaN exactly when `s` is empty or does not start with a hex digit, and is never negative |
| Numbers.ParseHexIntOfHexString | src/extension.ts:127 | a non-empty string of hex digits parses to its hex value |
| Numbers.ParseHexIntStopsAtNonDigit | src/extension.ts:40 | parsing stops at the first character that is not a hex digit |
| Numbers.ParseDecimalInt | src/extension.ts:30 | `Number.parseInt(s)` reads hex after a `0x` or `0X` that follows the optional sign, and decimal otherwise; it is NaN exactly when no digit of that base follows, and is negative only after a `-` |
| Numbers.ParseDecimalIntOfDigits | src/extension.ts:30 | a non-empty decimal digit string parses to its decimal value |
| Numbers.ParseDecimalIntStopsAtNonDigit | src/extension.ts:30 | without a radix, an optional `+` or `-` and then decimal digits read as those digits, signed, up to the first non-digit (`"-5"` is -5, `"12px"` is 12, `"1.5"` is 1), unless a lone `0` and an `x` form a hex prefix |
| Numbers.ParseDecimalIntOfHexPrefix | src/extension.ts:30 | without a radix, `0x` or `0X` then hex digits parses as hex, with or without a `-`, and `0x` alone is NaN |
| Numbers.ToHex | src/extension.ts:143 | `n.toString(16).toUpperCase()` for `n >= 0` is a non-empty upper-case hex string with value `n` and no leading zero |
| Numbers.IntToHex | src/extension.ts:143 | a negative number prints as `-` followed by the digits of its magnitude |
| Numbers.HexRoundTrip | src/extension.ts:143 | parsing the printed hex of `n` gives back `n` |
| Numbers.ToHexLength | src/extension.ts:143 | the printed hex of `n` has at most `k` digits exactly when `n < 16^k` |
| Numbers.PadStart | src/sideBarProvider.ts:80 | `padStart` has length `max(|s|, width)`, ends with `s`, and is fill characters before it |
| Numbers.PadStartKeepsValue | src/sideBarProvider.ts:80 | left-padding with `'0'` keeps a hex string's value |
| Numbers.PadStartKeepsUpper | src/extension.ts:143 | left-padding with `'0'` keeps a string upper-case hex |
| Numbers.HexValueAppend | src/extension.ts:107-116 | the value of `a + b` is `value(a) * 16^|b| + value(b)`, which is what the `00` and `7E` prefixes rely on |
| Numbers.LeadingZeroOfSix | src/extension.ts:120 | six hex digits start with `'0'` exactly when their value is below `0x100000` |
| Markup.FirstBreak | src/extension.ts:13 | a description without a newline is unchanged; with one it grows by exactly two characters, and only spaces are added |
| Markup.FirstBreakAt | src/extension.ts:13 | two spaces go in front of the first newline only; the text before it and everything after it, later newlines included, is kept |
| Markup.FindFrom | src/extension.ts:10-12 | the first occurrence of a delimiter at or after a position, or none when there is none |
| Markup.MatchGroupsIsLazy | src/extension.ts:10-12 | the groups found are exactly the lazy `(.*?)` split, in both directions: each group runs to the first occurrence of the delimiter after it |
| Markup.MatchGroupsComplete | src/extension.ts:10-12 | a match exists exactly when the delimiters occur in order after the opening tag |
| Markup.LayoutIsLazy | src/extension.ts:10-12 | groups laid out with their delimiters, each shorter than its delimiter's first occurrence, form the lazy split |
| Markup.MatchGroupsOfLayout | src/extension.ts:10-12 | such a layout is what the lazy groups capture, ending right after the last delimiter |
| Markup.RewriteHead | src/extension.ts:14-16 | a match at the head of the text is replaced by its template and the global scan resumes after it |
| Markup.ReplaceAllSkipsPlain | src/extension.ts:14-16 | text without the opening tag's first character is copied unchanged, and the scan resumes after it |
| Markup.ReplaceAllWithoutOpen | src/extension.ts:14-16 | text in which the opening tag never occurs is left unchanged |
| Markup.UrlRewrite | src/extension.ts:10-14 | `[url=T]L[/url]` becomes `[L](T)`; `T` ends at the first `]` and `L` at the first `[/url]` |
| Markup.AnchorRewrite | src/extension.ts:11-15 | `<a href="T">L</a>` becomes `[L](T)`; `T` ends at the first `">` and `L` at the first `</a>` |
| Markup.CodeRewrite | src/extension.ts:12-16 | `[code]B[/code]` becomes a fenced `plaintext` block around `B`; `B` ends at the first `[/code]` |
| Markup.PlainTextOnlyGetsBreak | src/extension.ts:8-18 | a description with no `[` and no `<` only gets its first newline turned into a hard break |
| Markup.PrepareLink | src/extension.ts:8-18 | a description that is one forum link comes out as one Markdown link, untouched by the anchor and code rewrites that follow |
| Markup.CodeOpenWithoutClose | src/extension.ts:16 | text with no `[` after its first character holds no `[/code]`, so even a `[code]` at its head is left alone and the scan moves on |
| Markup.BreakInsideCode | src/extension.ts:13-16 | the newline break runs before the code rewrite, so a first newline inside `[code]` leaves its two spaces inside the fenced block |
| Descriptors.MakeAddress | src/extension.ts:28-32 | every field is kept except `size`, which is the decimal value of a decimal digit text, or NaN when the text has no leading digit or sign, and `description`, which is passed through `prepareMarkdownString` |
| Descriptors.DropFirst | src/extension.ts:40 | `substring(1)` is the text after the first character, and empty for empty text |
| Descriptors.Plus | src/extension.ts:41 | the sum is a number exactly when both operands are, and then it is their sum |
| Descriptors.MakeRange | src/extension.ts:39-43 | `begin` is the hex parse of the address after its first character, and `end` is `begin + size` |
| Descriptors.RangeOfDescriptor | src/extension.ts:39-43 | a well-formed descriptor `$<hex>` of size `n` holds exactly the addresses from its value up to, not including, value + `n` |
| Descriptors.RecordRange | src/extension.ts:46-48 | `parseAddress` of a record with a one-character prefix, hex digits and a decimal size holds exactly the addresses from the hex value up to, not including, value + size |
| Descriptors.RecordWithoutSizeHoldsNothing | src/extension.ts:46-48 | `parseAddress` of a record whose size text has no leading digit or sign gives a NaN end and a range that holds nothing |
| Descriptors.MalformedRangeContainsNothing | src/extension.ts:130 | a descriptor whose address or size does not parse holds no address, because comparisons with NaN are false |
| Descriptors.NonEmptyRangeHasPositiveSize | src/extension.ts:130 | a range that holds an address has a numeric size of at least 1 and a non-negative start |
| Descriptors.FirstContaining | src/extension.ts:130 | the index of the first range from a position on that holds the address; none exactly when no later range holds it |
| Descriptors.Find | src/extension.ts:130-134 | `find` gives nothing exactly when no range holds the address; otherwise it gives a range that holds it, with none before it holding it |
| Descriptors.FindIgnoresLaterRanges | src/extension.ts:130 | ranges appended after the first match never change the answer |
| Descriptors.FindPrefersEarlier | src/sideBarProvider.ts:91 | a range placed first wins for every address it holds |
| Hover.TrimEnd | src/extension.ts:87 | `trimEnd` gives the longest prefix not ending in ECMAScript white space, and only white space is removed |
| Hover.DropLastTwo | src/extension.ts:91 | `substring(0, length - 2)` drops the last two characters, and gives the empty string for shorter text |
| Hover.SuffixTestAlwaysTrue | src/extension.ts:90 | no string ends with both `,x` and `,y`, so the first operand of the suffix test is always true |
| Hover.StripSuffixAsWritten | src/extension.ts:88-93 | as written, two characters are dropped and the ROM flag set exactly when the trimmed text is not two characters longer than the word |
| Hover.StripSuffix | src/extension.ts:89-93 | the intended test drops exactly a trailing `,x` or `,y`, and sets the ROM flag, when the word did not already end there |
| Hover.MatchIndex | src/extension.ts:95 | the leftmost position where a non-`#` character, then `$` or `!`, then two or more hex digits occur; none exactly when there is no such position |
| Hover.Group | src/extension.ts:99 | the captured group is 2 to 6 hex digits from the token, and it stops before a seventh digit or at the first non-digit |
| Hover.SwitchOnLength | src/extension.ts:103-127 | the string-level fall-through `switch` and the final parse give the same register, ROM or RAM address as the numeric bank rules; the ROM and register flags are never both set |
| HoverProperties.CanonicalBounds | src/extension.ts:100-127 | only an odd digit count names nothing; every address fits in 24 bits; ROM lies below `$100000` and RAM at or above it; registers are `$2000`-`$FFFF` |
| HoverProperties.TwoDigitsAreRam | src/extension.ts:106-110 | two digits always name RAM at `0x7E0000` + value |
| HoverProperties.SixDigitsRomIffLeadingZero | src/extension.ts:119-123 | six digits name ROM exactly when the first digit is `0`, and name their own value |
| Hover.BankPrefixValue | src/extension.ts:110 | prefixing `7E` to four digits gives `0x7E0000` + value, with first digit `7` |
| Hover.ZeroPrefixKeepsValue | src/extension.ts:107 | prefixing `00` keeps the value |
| Hover.ExtractWord | src/extension.ts:84-94 | trimming, suffix stripping and trimming again produce the token text and ROM flag of `Hover.Token`, which uses the corrected suffix test of the Findings row |
| HoverProperties.TokenAfterDollar | src/extension.ts:95-99 | in ` $dddd` followed by a non-digit, the token is those four digits |
| HoverProperties.PlainOperand | src/extension.ts:88-93 | with the intended test, `$dddd` followed by anything but an index suffix is read as a plain operand |
| HoverProperties.IndexedOperand | src/extension.ts:88-93 | `$dddd,x` and `$dddd,y` are read with the ROM flag set |
| HoverProperties.LowRamScenario | src/extension.ts:88-110 | hovering `0010` in `LDA $0010,x` gives RAM address `$7E0010`; the index suffix does not matter below `$2000` |
| HoverProperties.AsWrittenMisreadsPlainOperand | src/extension.ts:90 | as written, a register operand followed by any two characters is read as ROM, while the intended test reads it as a register |
| HoverProperties.AsWrittenRegisterExample | src/extension.ts:90 | hovering `2100` in `LDA $2100+1` gives ROM `$002100` as written, and register `$2100` with the intended test |
| HoverProperties.AsWrittenProviderExample | src/extension.ts:84-138 | on ` $2100+1` with word length 4 the provider as written shows the ROM range holding `$002100`, and with the corrected test the register range holding `$2100` |
| HoverProperties.HexFieldReadsBack | src/extension.ts:143 | the boundary field is upper-case hex that parses back to the number, at least `width` digits long, and exactly `width` long when the number fits |
| HoverProperties.PrintedAddressReadsBack | src/extension.ts:143 | printing a canonical address at its width (4 for registers, 6 otherwise) and reading it back as a token gives the same address and space |
| HoverProperties.BoundaryReadsBack | src/extension.ts:143 | the boundary line from a first to a last (inclusive) address that both fit the width shows two fields of exactly that width, which parse back to those two addresses |
| Hover.Links | src/extension.ts:148-153 | one link per details entry, in entry order, each pointing at the entry's detail page in the `rom` or `ram` region |
| Hover.Join | src/extension.ts:154 | `join` of no parts is empty and of one part is that part; joining several parts is at least as long as the separators between them |
| HoverProperties.JoinCons | src/extension.ts:154 | joining reads the same from the front: the first part, the separator, then the rest joined |
| Hover.RenderHover | src/extension.ts:139-161 | the two rendering branches build the hover Markdown: the description, then the joined links when there are details, then the boundary line when `size > 1` |
| Hover.CollectLinks | src/extension.ts:148-153 | the loop pushes exactly `Hover.Links` of the entries, one link per entry in entry order |
| Hover.LookUp | src/extension.ts:128-138 | the map searched is the registers for a register, ROM for ROM, RAM otherwise; no range holding the address means no hover |
| HoverProperties.HoverShowsFirstRange | src/extension.ts:129-138 | the hover shows the first range of the searched map that holds the address |
| HoverProperties.NoRangeNoHover | src/extension.ts:136-138 | there is no hover exactly when no range of the searched map holds the address |
| Hover.HoverOfToken | src/extension.ts:95-138 | no match or an odd digit count gives no hover; otherwise the hover is the one for the token's canonical address |
| Hover.ProvideHover | src/extension.ts:84-161 | the whole provider equals `Hover.HoverText` of the window and word length, the provider with the corrected suffix test of the Findings row |
| Sidebar.InputDigits | src/sideBarProvider.ts:48 | the group of `/^\$?([a-fA-F0-9]{0,6})/` is up to six hex digits right after an optional `$`; it stops at a non-digit or after six; it always matches |
| Sidebar.InputDigitsOfHex | src/sideBarProvider.ts:73-79 | up to six hex digits, typed with or without `$`, are captured whole |
| Sidebar.NoDigitsSearchBankStart | src/sideBarProvider.ts:73-87 | input with no hex digit after the optional `$` captures nothing and searches `$7E0000` for RAM, `$000000` otherwise |
| Sidebar.Normalise | src/sideBarProvider.ts:79-88 | padding to four digits, then a `7E` or `00` prefix for four-digit text, then parsing gives the address the numeric search rule names |
| Sidebar.SearchAddressBounds | src/sideBarProvider.ts:79-88 | every searched address fits in 24 bits; a short RAM search stays in bank 7E; a short search of another kind stays in bank 00 |
| Sidebar.SearchAgreesWithHover | src/sideBarProvider.ts:79-88 | for tokens the hover reads as RAM from up to four digits, as ROM from four, or from six digits, the sidebar searches the same address |
| Sidebar.BoundaryTypedBack | src/sideBarProvider.ts:48-88 | typing back, with its `$`, a six-digit address the hover's boundary line prints searches that very address |
| Sidebar.SidebarProvider.constructor | src/sideBarProvider.ts:50-54 | the provider starts with the given maps and an empty `searchResult` |
| Sidebar.SidebarProvider.ReceiveMessage | src/sideBarProvider.ts:68-110 | an absent or empty value clears `searchResult` and no lookup runs. Otherwise `searchResult` becomes `marked` applied to one of: the description of the first range of the chosen map holding the address; "Nothing found" when no range holds it; the old result for a kind other than `ram` or `rom`. Nothing else changes |
| Sidebar.SidebarProvider.Revive | src/sideBarProvider.ts:115-116 | `revive` clears `searchResult` |

## Left out

- Fetching the maps over HTTP, the status check and extension activation are I/O. The maps are inputs (`Hover.Maps`, the provider's fields).
- The editor calls (`getWordRangeAtPosition`, `Range.translate`, `getText`) are left out. Their results are inputs: the text from two columns before the word to two columns after it, and the word's length. The hover test for multi-line ranges is left out too.
- `translate(0, -2)` throws when the word starts in column 0 or 1. That case is not modelled.
- `MarkdownString` and `Hover` objects are left out; the hover is the Markdown text.
- Hover.MatchIndex: the shared `/g` regex keeps `lastIndex` between hovers, so a search can start after an earlier match. The model always searches from the start.
- Sidebar.SidebarProvider.ReceiveMessage: `marked` is a foreign Markdown-to-HTML library and is a function parameter.
- Sidebar.SidebarProvider.ReceiveMessage: the "Invalid address" branch cannot run because the pattern always matches, so it is not modelled. The error message, the HTML page, the nonce and the webview plumbing are UI and left out.
- Sidebar.SidebarProvider.ReceiveMessage: `data.value` is a string or absent. Other falsy values (`0`, `false`, `null`) all behave like an absent one; non-string values are not modelled.
- Descriptors.MakeAddress: `Object.assign` over arbitrary JSON is modelled as a record of the six fields. `size` arrives as the text `toString` gives it.
- Descriptors.MakeAddress: `details` is its list of entries in `Object.entries` order. JavaScript lists integer-like keys first in ascending order, and the model takes that order as given.
- Descriptors.MakeAddress: values on which the constructors throw are not modelled: a `null` `details` (`Object.entries`), and a `null` or missing `size` or `address` (`toString` on line 30, `substring` on line 40 of `src/extension.ts`). Detail labels are strings.
- Numbers.ParseDecimalInt: leading white space and numbers above 2^53, where doubles lose precision, are not modelled.
- Descriptors.MakeAddress: a size text with leading white space is NaN in the model; JavaScript skips the white space and reads the number.
- Descriptors.RecordWithoutSizeHoldsNothing: the same white-space gap; a size text such as `" 8"` holds nothing in the model but eight addresses in the code.
- Hover.ProvideHover: proved equal to the provider with the corrected suffix test; the provider as written is modelled as the function `Hover.HoverTextAsWritten`, not as a second method.
- Hover.DropLastTwo: lengths, `substring` and editor columns count UTF-16 code units in the code but Unicode scalar values in the model (a Dafny `string`). The two agree only when the window holds no character outside the Basic Multilingual Plane; with one, such as an emoji, the code drops one character where the model drops two.
- Hover.StripSuffixAsWritten: the same code-unit gap; `realRange` and `word.length` are compared as scalar-value counts.
- Hover.StripSuffix: the same code-unit gap.
- Hover.ExtractWord: inherits the code-unit gap of `StripSuffix`.
- Hover.ProvideHover: inherits the code-unit gap of `ExtractWord`.
- Hover.HoverTextAsWritten: inherits the code-unit gap of `StripSuffixAsWritten`.
- Numbers.ParseHexInt: leading white space, signs and the `0x` prefix are not modelled. The hover and the sidebar pass it only hex-digit strings; a map address is assumed to be one character followed by hex digits, which the code does not check.

## Findings

| source | as written | input that shows it | evidently intended | confidence | as-written member | corrected member |
|---|---|---|---|---|---|---|
| src/extension.ts:90 | `(!word.endsWith(',x') \|\| !word.endsWith(',y'))` is always true, so any two characters after the word are dropped and the token may become ROM | hovering `2100` in `LDA $2100+1` (text ` $2100+1`, word length 4) shows ROM `$002100` instead of register `$2100` | `(word.endsWith(',x') \|\| word.endsWith(',y'))`, as the comment on line 89 says | not executed | HoverProperties.AsWrittenRegisterExample | Hover.StripSuffix |
