# findyourdeal text core in Dafny

findyourdeal watches second-hand marketplaces (OLX, Vinted) and sends new offers to users over a Telegram
bot and a web panel. Its deterministic core handles text, and that core is modelled here. The scraping, the
database, Telegram and Stripe are not part of this model.

- **Translation tooling.** These modules model `api/scripts/i18n_translate.py`:
  - `Translator` models `translate_text` and `generate_translation`. It masks `{placeholders}`, substitutes
    terms word by word and restores the placeholders. It re-quotes `key: "value"` lines.
  - `TranslatorProofs` proves what that promises: placeholders survive in order; an unsupported language
    changes nothing; lines are kept or re-quoted.
  - `SectionLocator` models `parse_en_section` and the search for the `pl: {` block: exact trimmed marker
    lines, and brace-depth counting.
  - `Injector` models `main`. It inserts one translated block per missing language after the `pl` block.
    The file is changed only by that insertion, and a second run changes nothing.
- **Billing-page patch scripts.**
  - `CtaPatch` models `replace_cta.py`: a marker-delimited span replace and two import edits.
  - `CtaFix` models `fix_cta.py`: an import pass and a line skip driven by parenthesis depth.
- **Lookups.**
  - `Templates` is the `{k}` substitution shared by the bot and the panel. `Json` holds JSON-like values.
  - `UnifiedI18n` models `getByPath`, `t`, `normalizeLangCode` and `getUserLang` of `api/i18n_unified.js`.
  - `BotI18n` models `api/i18n.js`'s `normalizeLang`, the language keyboard and `t`.
  - `PanelI18n` models the panel's `normLang`, `fmt` and `getStr`.
  - `CommandAliases` models slash-command resolution and the primary alias.
- **Workers.**
  - `Feed` holds helpers that both workers share line for line: item keys, "items newer than the last key",
    quiet hours, HTML escaping and the batch key.
  - `LegacyWorker` models `worker.js`: `cleanKey`, `matchFilters`, the batch message and the Vinted ordering.
  - `ApiWorker` models `api/worker.js`: key normalisation, the batch message capped at 3900 UTF-16 units,
    and URL price bounds.
- **Checks and text helpers.**
  - `I18nCheck` models the completeness checks of `api/i18n-check.js`.
  - `TextNormalize` models the bot's login-URL dedupe and keyboard-URL append.
  - `ChunkText` models the server's message chunking.
- **Plans.**
  - `PlansJs` and `PlansTs` model the two plan tables and the limit arithmetic.
  - `BillingPage` models the billing page's plan codes, upgrade list and limit/percentage arithmetic.

Loops in the source are methods with `while`/`for` loops. Each is proved equal to a specification function,
and the properties are lemmas about those functions. Code written as expressions stays a function.
Translation tables, dictionaries and the command table are parameters, or small excerpts where a test names
concrete values.

## Model

| member | source | states |
|---|---|---|
| Translator.TranslateText | api/scripts/i18n_translate.py:328-354 | the loop-by-loop translation equals the value-level definition `TranslateValue`, and a trimmed `/command` value comes back unchanged |
| Translator.TranslateValue | api/scripts/i18n_translate.py:328-354 | a trimmed `/command` value is returned unchanged, and so is a value without placeholders for a language with no table |
| Translator.MaskPlaceholders | api/scripts/i18n_translate.py:336-339 | the masking loop swaps the first occurrence of each placeholder, in turn, for its sentinel |
| Translator.ApplyTable | api/scripts/i18n_translate.py:344-348 | the term loop applies every table entry in order to the whole text |
| Translator.RestorePlaceholders | api/scripts/i18n_translate.py:351-352 | the restoring loop swaps each sentinel, in turn, back for its placeholder |
| Translator.Sentinel | api/scripts/i18n_translate.py:339 | the i-th sentinel starts with `__PH`, ends with `__` and is at least seven characters long |
| Translator.Segments | api/scripts/i18n_translate.py:336 | the placeholder scan yields one more gap than placeholders |
| Translator.ClosingQuote | api/scripts/i18n_translate.py:403 | a closing quote found lies after the value's start and is a quote character |
| Translator.ClosingQuoteFirst | api/scripts/i18n_translate.py:403 | the closing quote is the first quote after the value's start with no line break before it |
| Translator.MatchSpansValid | api/scripts/i18n_translate.py:403 | a matched line's spans are well formed: whitespace indent, `[a-z_]` key, `:`, whitespace, a quote, a first value character that is not a line break, further value characters with no quote or line break, the closing quote, an optional comma and trailing whitespace, with no whitespace right after the match |
| Translator.ParseEntry | api/scripts/i18n_translate.py:403 | a matched line starts with its indent, a nonempty `[a-z_]` key, `:`, spaces, the opening quote, a nonempty lazily matched value, the closing quote, an optional comma and trailing spaces, in that order |
| Translator.TranslateLines | api/scripts/i18n_translate.py:396-420 | translating line by line keeps the number of lines |
| Translator.TranslateOneLine | api/scripts/i18n_translate.py:397-420 | one pass of the loop body gives the line-level translation |
| Translator.GenerateTranslation | api/scripts/i18n_translate.py:391-422 | the output is the translated lines of the input joined by newlines |
| Translator.TranslateLine | api/scripts/i18n_translate.py:397-420 | a line changes only if it is not blank, not a `//` comment and matches the entry pattern |
| TranslatorProofs.MaskShape | api/scripts/i18n_translate.py:336-339 | after i masking steps, the first i placeholders are sentinels and the gaps are untouched |
| TranslatorProofs.RestoreShape | api/scripts/i18n_translate.py:351-352 | after i restoring steps, the first i sentinels are placeholders again |
| TranslatorProofs.UnsupportedLanguageUnchanged | api/scripts/i18n_translate.py:336-354 | for a language with no table, a text without `__PH` is returned unchanged |
| TranslatorProofs.PlaceholdersPreserved | api/scripts/i18n_translate.py:336-352 | the result is the input's placeholders in the same order, interleaved with translated gaps |
| TranslatorProofs.TranslateValueOneLine | api/scripts/i18n_translate.py:328-354 | a one-line value translates to a one-line value when the tables hold no newline |
| TranslatorProofs.TranslateLineKept | api/scripts/i18n_translate.py:397-420 | blank lines, `//` comments and lines the pattern does not match are kept verbatim |
| TranslatorProofs.TranslateLineRequoted | api/scripts/i18n_translate.py:403-417 | a matched line becomes its own indent, key and `:` as written, one space, the translated value between `"` quotes, then its own comma and trailing spaces; the separator, the original quotes and anything after the match are dropped |
| TranslatorProofs.ParseEntryBuilt | api/scripts/i18n_translate.py:403 | a line built from indent, key, `:`, spaces, quotes around a lazily matched value, comma and trailing spaces parses back into exactly those parts |
| TranslatorProofs.CanonicalLineKept | api/scripts/i18n_translate.py:403-417 | for a language with no table, a line already in the output's `key: "value",` form is written back unchanged |
| TranslatorProofs.ValueMayOpenWithQuote | api/scripts/i18n_translate.py:403 | the value pattern `.+?` may itself begin with a quote: `k: """` parses with value `"` |
| TranslatorProofs.GenerateTranslationLines | api/scripts/i18n_translate.py:391-422 | the output has exactly as many lines as the input |
| SectionLocator.ReadLines | api/scripts/i18n_translate.py:358-359 | the lines read, each with its newline, concatenate back to the file |
| SectionLocator.FirstMarker | api/scripts/i18n_translate.py:366-371 | the first line at or after a start whose trimmed text is the marker, or none when no such line exists |
| SectionLocator.FindMarkers | api/scripts/i18n_translate.py:366-371 | the scan finds the first `pl: {` line, and the line after the last `en: {` above it |
| SectionLocator.EnSectionNeedsMarkers | api/scripts/i18n_translate.py:373-375 | a section is found only if an exact `en: {` line lies above an exact `pl: {` line |
| SectionLocator.LastMarker | api/scripts/i18n_translate.py:378-381 | the last line in a range whose trimmed text is the marker, or none |
| SectionLocator.FindEnEnd | api/scripts/i18n_translate.py:378-381 | the downward scan finds the last `},` line strictly between the start and `pl: {` |
| SectionLocator.EnBounds | api/scripts/i18n_translate.py:366-388 | the section lies strictly between its `en: {` marker and a `},` line, both before the first `pl: {` |
| SectionLocator.ParseEnSection | api/scripts/i18n_translate.py:356-389 | the file-level parse equals the line-level definition of the `en` section |
| SectionLocator.FindPlStart | api/scripts/i18n_translate.py:447-450 | the search finds the first exact `pl: {` line |
| SectionLocator.PlEnd | api/scripts/i18n_translate.py:456-467 | insertion goes one past the first line after the start where the brace depth returns to 0, and depth is nonzero before it |
| SectionLocator.FindPlEnd | api/scripts/i18n_translate.py:456-467 | the brace-counting loop computes that insertion line |
| Injector.Translations | api/scripts/i18n_translate.py:473-475 | one translated block per language |
| Injector.TranslateAll | api/scripts/i18n_translate.py:473-475 | the per-language loop computes those blocks, in order |
| Injector.InsertionLine | api/scripts/i18n_translate.py:442-471 | none without a `pl: {` line; otherwise the insertion line is one past the first line after `pl: {` where the brace depth counted from it is 0, depth is nonzero on the lines between, and the line lies inside the file |
| Injector.InsertSections | api/scripts/i18n_translate.py:473-485 | the list after the loop is the old lines with the new blocks put in at the cursor, in language order |
| Injector.NewSectionsMissing | api/scripts/i18n_translate.py:477-485 | a block is added for every language whose marker is missing, and none when all are present |
| Injector.InjectLanguages | api/scripts/i18n_translate.py:424-496 | the method equals the content-level definition of `main` |
| Injector.InjectUnchanged | api/scripts/i18n_translate.py:477-489 | when every language already has its marker, the file is written back unchanged |
| Injector.InjectSplices | api/scripts/i18n_translate.py:482-489 | the new file is the old one with one text inserted at the start of line `InsertionLine(content).value`: the blocks of exactly the missing languages |
| Injector.Inject | api/scripts/i18n_translate.py:424-496 | the script stops exactly when there is no `en` section, the section is empty, or there is no insertion line |
| Injector.InjectMarksAll | api/scripts/i18n_translate.py:477-485 | afterwards every language has its marker in the file |
| Injector.InjectIdempotent | api/scripts/i18n_translate.py:424-496 | a second run writes the same content or stops |
| Injector.LanguagesOneLine | api/scripts/i18n_translate.py:439 | the nine language codes hold no newline, so idempotence applies to them |
| CtaPatch.StartMissingExits | panel/app/billing/replace_cta.py:17-23 | the script stops before writing exactly when the start marker is missing |
| CtaPatch.EndMissingExits | panel/app/billing/replace_cta.py:25-28 | it stops exactly when there is a start marker but no end marker at or after it |
| CtaPatch.PatchedSpan | panel/app/billing/replace_cta.py:30-38 | a patched file is the text before the start marker, the CTA element, then the text after the end marker |
| CtaPatch.SpanPatched | panel/app/billing/replace_cta.py:30-38 | given the marker positions, that is exactly what is written |
| CtaPatch.CtaImportAdded | panel/app/billing/replace_cta.py:5-8 | a single i18n import gets the BillingCTA import on the line after it |
| CtaPatch.CheckoutImportRemoved | panel/app/billing/replace_cta.py:10-11 | a single startCheckout import line is removed and nothing else changes |
| CtaPatch.SwapWithoutImports | panel/app/billing/replace_cta.py:4-11 | without either import the import edits change nothing |
| CtaFix.AddCtaImport | panel/app/billing/fix_cta.py:4-12 | the import loop equals the per-line import pass |
| CtaFix.ImportEmitAppended | panel/app/billing/fix_cta.py:6-12 | one loop step (push, maybe push the CTA import, maybe pop) appends that line's output |
| CtaFix.ImportPassSplit | panel/app/billing/fix_cta.py:6-12 | the pass works line by line: a line's output depends on that line alone |
| CtaFix.CtaImportFollows | panel/app/billing/fix_cta.py:8-9 | the BillingCTA import comes right after the i18n import line |
| CtaFix.CheckoutImportDropped | panel/app/billing/fix_cta.py:10-12 | the startCheckout import line is dropped |
| CtaFix.SkipCtaBlock | panel/app/billing/fix_cta.py:15-42 | the skip loop equals the recursive definition of the skip |
| CtaFix.FixCta | panel/app/billing/fix_cta.py:4-45 | the whole script equals the import pass followed by the skip |
| CtaFix.Kept | panel/app/billing/fix_cta.py:38-42 | outside a block, no more lines come out than go in |
| CtaFix.PlainLinesKept | panel/app/billing/fix_cta.py:38-42 | lines without the platinum marker pass through in order, minus the startCheckout import |
| CtaFix.PlainLinesToEnd | panel/app/billing/fix_cta.py:38-42 | with no marker left, the rest of the file passes through that way |
| CtaFix.SkipToClose | panel/app/billing/fix_cta.py:30-36 | skipping stops at the first line with `)}` once the depth counted from the marker is at most 0 |
| CtaFix.UnclosedBlock | panel/app/billing/fix_cta.py:30-36 | a block that never closes swallows the rest of the file |
| CtaFix.BlockReplaced | panel/app/billing/fix_cta.py:22-36 | the marker line and the lines up to the closing line become the one BillingCTA line |
| CtaFix.OneBlock | panel/app/billing/fix_cta.py:19-42 | with one marker and its closing line, the output is the kept lines before it, the CTA line, then the kept lines after it |
| CtaFix.BlockThenRest | panel/app/billing/fix_cta.py:22-42 | after the block, the remaining lines are kept |
| CtaFix.CtaLineNotCheckout | panel/app/billing/fix_cta.py:27 | the inserted CTA line is not a startCheckout import |
| CtaFix.NoCheckoutLeft | panel/app/billing/fix_cta.py:38-40 | no startCheckout import survives the skip pass |
| Templates.PlaceholderEnd | api/i18n_unified.js:2724 | a placeholder at the start is `{`, at least one word character, then `}` |
| Templates.NoVars | api/i18n_unified.js:2723-2727 | with no values every placeholder stays and the text is unchanged |
| Templates.Interpolate | api/i18n_unified.js:2723-2727 | a text without `{` is unchanged whatever the values |
| Templates.Front | api/i18n_unified.js:2723-2727 | `{k}` becomes the value of k when there is one, and otherwise stays `{k}`; the rest follows |
| Templates.Single | api/i18n_unified.js:2723-2727 | a lone `{k}` becomes the value of k, or stays |
| Templates.PlainPrefix | api/i18n_unified.js:2723-2727 | text before the first `{` is copied as it is |
| Templates.Entry | panel/app/_lib/i18n.ts:1128 | a language table's entry exists exactly when the language and the key are present |
| Json.FieldValue | api/i18n_unified.js:2733-2735 | a member is found exactly when some field has that key, and it is that field's value |
| Json.FieldValueAt | api/i18n_unified.js:2733-2735 | with distinct keys, each field's key finds its own value |
| Json.Assign | api/i18n_unified.js:140-181 | defining a key in an object under construction gives that key the new value, leaves every other key's value alone, and adds a field only for a new key |
| Json.AssignUnique | api/i18n_unified.js:140-181 | assigning keeps the object's keys distinct |
| Json.Literal | api/i18n_unified.js:64-75 | the object a literal evaluates to has distinct keys |
| Json.LiteralLast | api/i18n_unified.js:64-75 | each key of the evaluated object reads the value of its last definition in the literal |
| Json.RepeatedKeyLastWins | api/i18n_unified.js:140-181 | a repeated key keeps its first position and takes its last value, as `najnowsze` does in the `en` table |
| UnifiedI18n.GetByPath | api/i18n_unified.js:2730-2738 | the segment loop equals a walk down the dotted path |
| UnifiedI18n.LookupConcat | api/i18n_unified.js:2732-2737 | walking a path in two parts is walking it at once |
| UnifiedI18n.NullLookup | api/i18n_unified.js:2734 | once null, the walk stays null |
| UnifiedI18n.MissingSegment | api/i18n_unified.js:2733-2735 | a missing segment anywhere gives null |
| UnifiedI18n.DictLookupPath | api/i18n_unified.js:2743-2744 | a dictionary lookup is the walk from the language down the key's path |
| UnifiedI18n.TFallback | api/i18n_unified.js:2741-2763 | `t` reads the requested language, then English, then gives back the key |
| UnifiedI18n.T | api/i18n_unified.js:2741-2763 | a key missing in the language and in English comes back as itself; without values a found entry is its text |
| UnifiedI18n.TPlainEntry | api/i18n_unified.js:2762 | a found text without `{` is returned as it is |
| UnifiedI18n.NormalizeLangCode | api/i18n_unified.js:2766-2773 | the result is English or a supported code |
| UnifiedI18n.RegionIgnored | api/i18n_unified.js:2769 | a region suffix after `-` does not change the result |
| UnifiedI18n.CaseIgnored | api/i18n_unified.js:2769 | case does not change the result |
| UnifiedI18n.NormalizePlain | api/i18n_unified.js:2770-2772 | a lower-case code is kept when supported and becomes English otherwise |
| UnifiedI18n.NormalizeIdempotent | api/i18n_unified.js:2766-2773 | normalising twice is normalising once |
| UnifiedI18n.SupportedPairs | api/i18n_unified.js:2770 | every supported code has two letters |
| UnifiedI18n.GetUserLang | api/i18n_unified.js:2777-2790 | the result is English or a supported code |
| UnifiedI18n.ExplicitWins | api/i18n_unified.js:2780-2782 | a stored `language`, or else `lang`, decides the result whatever the lower fields hold |
| UnifiedI18n.HintDecides | api/i18n_unified.js:2784-2789 | with neither stored, Telegram's `language_code` decides |
| UnifiedI18n.PersistenceExplicitCases | api/test-language-persistence.js:18-33 | the stored-language cases of the persistence test hold |
| UnifiedI18n.PersistenceInvalidCase | api/test-language-persistence.js:49-53 | an unsupported stored code gives English |
| UnifiedI18n.PersistenceHintCases | api/test-language-persistence.js:34-43 | the hint cases of the persistence test hold |
| CommandAliases.Listed | api/command_aliases.js:312-313 | a word is listed exactly when some language's alias list holds it |
| CommandAliases.FirstCanonicalSpec | api/command_aliases.js:311-319 | resolution finds a command exactly when one lists the word, and then the first one in table order |
| CommandAliases.NormalizeCommand | api/command_aliases.js:292-320 | the nested loops with early return equal the resolution function |
| CommandAliases.CommandWordStrips | api/command_aliases.js:295-308 | the leading `/`, an `@bot` suffix and arguments are stripped and the word lower-cased |
| CommandAliases.ResolveWord | api/command_aliases.js:292-320 | a clean lower-case `/word` resolves as its word does |
| CommandAliases.ListedResolves | api/command_aliases.js:311-319 | in a well-formed table, every alias of a command resolves to it |
| CommandAliases.FindCommand | api/command_aliases.js:329 | the entry found has the canonical name, and none is found only when no entry has it |
| CommandAliases.AliasesFor | api/command_aliases.js:333 | a language's alias list is found exactly when the command has that language |
| CommandAliases.FirstAliasListed | api/command_aliases.js:333-340 | a first alias is one the command lists |
| CommandAliases.PrimaryListed | api/command_aliases.js:328-344 | the primary alias (language, else English) is listed under the command |
| CommandAliases.GetPrimaryAlias | api/command_aliases.js:328-344 | an unknown command gives its own name; otherwise the result is the name or an alias the command lists |
| CommandAliases.PrimaryRoundTrip | api/command_aliases.js:328-344 | resolving `/` plus the primary alias gives the command back |
| CommandAliases.DodajPolishCase | api/test-i18n.js:112 | `/dodaj` resolves to `dodaj` in the table excerpt |
| CommandAliases.DodajEnglishCase | api/test-i18n.js:113 | `/add` resolves to `dodaj` |
| CommandAliases.DodajGermanCase | api/test-i18n.js:114 | `/hinzufügen` resolves to `dodaj` |
| CommandAliases.DodajFrenchCase | api/test-i18n.js:115 | `/ajouter` resolves to `dodaj` |
| Feed.Keyed | worker.js:223-224 | only items with a key are kept, in order |
| Feed.GetItemKey | worker.js:209-211 | the key is one of `itemKey`, `item_key` and `itemKeyNormalized`, and is missing exactly when all three are (also api/worker.js:945-947) |
| Feed.TakeNewItemsUntilLastKey | worker.js:217-233 | the loop equals the scan definition, which gives nothing and not-found for an empty last key (line 218); the API worker's copy is api/worker.js:949-966 |
| Feed.TakeNewHit | worker.js:220-233 | when an item has the last key, the result is the keyed items before the first such item, and found |
| Feed.TakeNewMiss | worker.js:220-233 | when none has it, the result is all keyed items, and not found |
| Feed.JsRem | worker.js:240-242 | JavaScript's `%` truncates: the remainder lies strictly between -b and b and is not negative for a non-negative dividend |
| Feed.Hour24Mod | worker.js:240-242 | `((x % 24) + 24) % 24` is the mathematical remainder |
| Feed.QuietHours | worker.js:236-247 | equal ends give no quiet hours; otherwise `[from, to)`, wrapping past midnight when from > to (also api/worker.js:968-980) |
| Feed.IsHourInQuietRange | worker.js:236-247 | an hour is quiet only when hour and both ends are numbers and the ends differ modulo 24 |
| Feed.QuietComplement | worker.js:244-247 | swapping the ends gives exactly the other hours |
| Feed.QuietPeriodic | worker.js:240-242 | shifting the hour by whole days changes nothing |
| Feed.EscapeHtml | worker.js:370-375 | escaped text holds no `<` and no `>` |
| Feed.EscapePlain | worker.js:370-375 | text without `&`, `<` and `>` is unchanged |
| Feed.MakeBatchKey | worker.js:884-886 | with no `:` in the parts, the batch key splits back into user, chat and link (also api/worker.js:1542-1544) |
| LegacyWorker.CleanKey | worker.js:94-101 | a key is kept trimmed and nonempty, and `null`/`undefined` in any case are dropped |
| LegacyWorker.CleanKeyIdempotent | worker.js:94-101 | cleaning twice is cleaning once |
| LegacyWorker.CleanKeyIgnoresSpace | worker.js:94-101 | surrounding whitespace does not matter |
| LegacyWorker.MatchFilters | worker.js:522-523 | an empty filter object lets every item through |
| LegacyWorker.FiltersIndependent | worker.js:522-559 | an item matches all filters exactly when it matches price, brand, size and condition filters one at a time |
| LegacyWorker.PriceOutsideExcluded | worker.js:527-533 | a known price below the minimum or above the maximum fails |
| LegacyWorker.UnknownPriceKept | worker.js:525-533 | an item without a price is not judged on price |
| LegacyWorker.BuildBatchMessage | worker.js:862-882 | the loop builds the trimmed header, numbered blocks, the `+N` line and the footer |
| LegacyWorker.BlocksStep | worker.js:866-874 | each loop step appends the next item's numbered block |
| LegacyWorker.BlocksPrefix | worker.js:866-874 | the blocks of a prefix of the items begin the message body |
| LegacyWorker.BlockNumbered | worker.js:866-873 | item i appears as block number i + 1, after the earlier ones |
| LegacyWorker.BatchUntrimmed | worker.js:876-879 | for a link id that does not end in whitespace, trimming leaves the message as built and it ends with the `/najnowsze` footer |
| LegacyWorker.Insert | worker.js:1724-1728 | inserting into a list sorted by Vinted id (descending) keeps it sorted and adds exactly that item |
| LegacyWorker.SortByIdDesc | worker.js:1724-1728 | the result is sorted by id descending, missing ids as -1, and is a permutation |
| LegacyWorker.SortItemsForNotify | worker.js:1720-1731 | Vinted items come sorted and permuted; other sources are unchanged |
| ApiWorker.NormalizeKey | api/worker.js:626-648 | a normalised key is empty, a prefix of the trimmed input, `vinted:<digits>` or `olx:<alnum>` |
| ApiWorker.KeyIgnoresSpace | api/worker.js:627 | surrounding whitespace does not matter |
| ApiWorker.KeyPrefixed | api/worker.js:630-632 | a key already prefixed `vinted:`/`olx:` is kept as trimmed |
| ApiWorker.KeyVintedUrl | api/worker.js:634-638 | a Vinted item URL becomes `vinted:` and its id |
| ApiWorker.VintedMatch | api/worker.js:636-637 | the digits after the first `/items/` are the id |
| ApiWorker.DigitsKey | api/worker.js:636-637 | a found id key is the tag followed by digits |
| ApiWorker.OlxKey | api/worker.js:640-644 | a found OLX key is `olx:` followed by letters and digits |
| ApiWorker.KeyStripsQuery | api/worker.js:646-647 | another URL loses its `?` or `#` tail |
| ApiWorker.StripQueryHash | api/worker.js:647 | the stripped text is a prefix of the input |
| ApiWorker.NormalizeKeys | api/worker.js:650-652 | no empty key is kept |
| ApiWorker.NormalizeKeysMembers | api/worker.js:650-652 | a key is kept exactly when it is the nonempty normal form of an input key |
| ApiWorker.NormalizeKeysAll | api/worker.js:650-652 | when no key normalises to empty, every key is kept in place |
| ApiWorker.RenderBlocks | api/worker.js:1507-1518 | one block per item |
| ApiWorker.BuildBatchMessage | api/worker.js:1487-1538 | the message is at most 3900 UTF-16 units or exactly the header-and-footer fallback |
| ApiWorker.FillUnderCap | api/worker.js:1501-1537 | the capped loop equals the capped-batch definition and respects the cap |
| ApiWorker.KeepFitting | api/worker.js:1506-1529 | the loop keeps the prefix of blocks before the first candidate over the cap, and the text is the header and those blocks |
| ApiWorker.FirstOverSpec | api/worker.js:1524 | the stopping index is the first candidate over the cap |
| ApiWorker.AllFitAllKept | api/worker.js:1506-1529 | when every candidate fits, every item is kept |
| ApiWorker.KeptFits | api/worker.js:1521-1527 | each kept candidate fits, and the first dropped one does not |
| ApiWorker.CappedBatch | api/worker.js:1493-1537 | the message is the fallback, or the kept prefix with a footer counting the dropped items plus the skipped ones, within the cap |
| ApiWorker.KeptNumbered | api/worker.js:1507-1518 | kept item q is block number q + 1 |
| ApiWorker.FilterBounds | api/worker.js:2868-2873 | an item is kept exactly when it lies within the bounds |
| ApiWorker.ApplyUrlPriceBounds | api/worker.js:2864-2875 | no bounds return the input; items without a price are always kept; nothing is added |
| ApiWorker.BoundsKeep | api/worker.js:2867-2873 | with a bound, an item is kept exactly when it is within the bounds |
| I18nCheck.CountKeys | api/i18n-check.js:85-96 | the recursive counter equals the number of leaves |
| I18nCheck.LeavesConcat | api/i18n-check.js:87-95 | leaves add up over concatenated fields |
| I18nCheck.FlatLeaves | api/i18n-check.js:87-95 | a flat object has one leaf per field |
| I18nCheck.FindMissingKeys | api/i18n-check.js:98-119 | the recursive search equals the missing-paths definition |
| I18nCheck.MissingSelf | api/i18n-check.js:98-119 | an object is missing nothing against itself |
| I18nCheck.MissingFromEmpty | api/i18n-check.js:104-107 | against an empty target every top-level key is reported with its dotted path |
| I18nCheck.FirstPhrase | api/i18n-check.js:141-146 | the first English phrase the text contains, in list order, or none |
| I18nCheck.FindPhrase | api/i18n-check.js:141-146 | the loop with early exit finds that phrase |
| I18nCheck.FindEnglishPhrases | api/i18n-check.js:121-153 | the recursive search equals the English-hit definition |
| I18nCheck.EnglishBound | api/i18n-check.js:136-145 | at most one phrase is reported per leaf key |
| I18nCheck.CleanedNoBrace | api/i18n-check.js:138 | text without `{` is searched as it is |
| I18nCheck.CleanedDropsPlaceholder | api/i18n-check.js:138 | `{...}` text is removed before the search |
| I18nCheck.PlaceholderNotEnglish | api/i18n-check.js:136-145 | a value that is only a placeholder is not reported |
| I18nCheck.QuietHoursReported | api/i18n-check.js:124-145 | a value containing `Quiet hours` is reported with that phrase |
| I18nCheck.TokenAt | api/i18n-check.js:169 | a token found starts at the front and is at least three characters long |
| I18nCheck.NoOpenerNoTokens | api/i18n-check.js:169-170 | text without `{` has no placeholders, and text without `<` or `&` has no tags or entities |
| I18nCheck.PlaceholderToken | api/i18n-check.js:169 | `{word}` at the front is the first placeholder |
| I18nCheck.SortStrings | api/i18n-check.js:169-170 | the sort orders the tokens and is a permutation |
| I18nCheck.SortedEqualIff | api/i18n-check.js:169-173 | two sorted lists are equal exactly when the lists are permutations of each other |
| I18nCheck.CheckTokens | api/i18n-check.js:155-188 | the recursive check equals the mismatch definition |
| I18nCheck.CheckKey | api/i18n-check.js:203-215 | one key is checked as the definition says |
| I18nCheck.CheckStep | api/i18n-check.js:162-185 | each loop step appends that key's reports |
| I18nCheck.MismatchIff | api/i18n-check.js:167-179 | a string key is reported exactly when the token multisets of source and target differ |
| I18nCheck.CheckSelf | api/i18n-check.js:155-188 | an object checked against itself reports nothing |
| TextNormalize.MatchShaped | api/src/bot/text-normalize.js:8 | each match of the login-URL pattern has its shape: scheme, host, path, `?token=` and hex |
| TextNormalize.LoginUrlsShaped | api/src/bot/text-normalize.js:8-9 | every URL found has that shape |
| TextNormalize.SplitLines | api/src/bot/text-normalize.js:13 | one line per newline-separated piece |
| TextNormalize.Deduped | api/src/bot/text-normalize.js:4-32 | text with at most one login URL is unchanged; otherwise the result is never empty and holds the first login URL, unless that URL itself contains `Panel:` |
| TextNormalize.DedupePanelLoginUrl | api/src/bot/text-normalize.js:4-32 | the loop equals the dedupe definition |
| TextNormalize.KeptStep | api/src/bot/text-normalize.js:18-26 | a bare URL line is dropped when a `Panel:` line holds the URL or one was already seen |
| TextNormalize.KeptWithPanel | api/src/bot/text-normalize.js:14-21 | with a `Panel:` line, every bare line is dropped and all other lines stay |
| TextNormalize.KeptFirstBare | api/src/bot/text-normalize.js:17-25 | without one, exactly one bare line stays when there was any, and as many lines are removed as there are further bare lines |
| TextNormalize.KeptAfterFirstBare | api/src/bot/text-normalize.js:17-25 | without one, every line up to and including the first bare line stays, and after it exactly the bare lines are dropped, the others kept in order |
| TextNormalize.KeptPanelWithoutBare | api/src/bot/text-normalize.js:14-21 | with a `Panel:` line, the result is the lines with every bare line removed, in order |
| TextNormalize.LinkSurvives | api/src/bot/text-normalize.js:12-28 | when the first login URL does not contain `Panel:`, the trimmed and collapsed kept text still holds it |
| TextNormalize.PanelNamedLinkLost | api/src/bot/text-normalize.js:14-21 | a URL containing `Panel:` on its only, bare line counts as its own `Panel:` line, so that line is dropped and no kept line holds the URL |
| TextNormalize.KeptNoBare | api/src/bot/text-normalize.js:18-26 | lines without a bare URL line are kept |
| TextNormalize.CollapseNoTriple | api/src/bot/text-normalize.js:27 | collapsing leaves no three newlines in a row |
| TextNormalize.CollapseKeeps | api/src/bot/text-normalize.js:27 | text without three newlines in a row is unchanged |
| TextNormalize.FirstLink | api/src/bot/text-normalize.js:43-50 | a found button URL starts with `http://` or `https://` |
| TextNormalize.FirstLinkConcat | api/src/bot/text-normalize.js:43-50 | the first link of two button lists is the first list's, else the second's |
| TextNormalize.FoundInRow | api/src/bot/text-normalize.js:43-49 | the first link button in row order is the one returned |
| TextNormalize.KeyboardFirstLink | api/src/bot/text-normalize.js:43-50 | the first row holding a link gives the keyboard's link |
| TextNormalize.WithKeyboardUrl | api/src/bot/text-normalize.js:35-56 | text with an http(s) link, or a keyboard without a link, is unchanged |
| TextNormalize.AppendUrlFromKeyboard | api/src/bot/text-normalize.js:35-56 | the nested loops with early return equal the definition |
| TextNormalize.AppendOnce | api/src/bot/text-normalize.js:38 | appending twice is appending once |
| TextNormalize.AppendsFirstLink | api/src/bot/text-normalize.js:47-48 | otherwise the text, right-trimmed, gets a newline and the first link |
| ChunkText.ChunkText | server/src/routes/bot.ts:28-47 | the loop equals the chunk definition, and text within the limit is one chunk |
| ChunkText.PackBounds | server/src/routes/bot.ts:35-44 | no pushed chunk is empty, and each fits the limit or is a single block |
| ChunkText.StepBounds | server/src/routes/bot.ts:36-42 | one step keeps those bounds |
| ChunkText.ChunkBounds | server/src/routes/bot.ts:35-44 | each chunk is nonempty and within the limit, unless it is one oversized block |
| ChunkText.PackRejoins | server/src/routes/bot.ts:35-44 | the chunks joined by blank lines give back the blocks |
| ChunkText.StepRejoins | server/src/routes/bot.ts:36-42 | one step keeps the blocks in order |
| ChunkText.ChunksRejoin | server/src/routes/bot.ts:28-47 | the chunks joined by blank lines give back the text |
| PlansJs.EffectiveLinkLimit | plans.js:56-68 | the limit is never negative with non-negative packs; off platinum it is the table value, 0 for unknown plans |
| PlansJs.PerLinkItemLimit | plans.js:70-74 | 0 exactly for `none`, and 20 otherwise |
| PlansJs.PlatinumPacks | plans.js:62-66 | platinum gives 200 plus 10 per pack |
| PlansJs.PacksOnlyPlatinum | plans.js:56-68 | packs count only on platinum |
| PlansJs.CaseInsensitive | plans.js:24-30 | the plan name is read case-insensitively |
| PlansJs.PlansOrdered | plans.js:6-18 | none < trial < basic < pro < platinum in links allowed |
| PlansJs.ActiveEarlier | plans.js:76-86 | a plan active now was active at every earlier time |
| PlansJs.IsPlanActive | plans.js:76-86 | a bare id is active; a record is active exactly when its plan is not `none` and it has no expiry or expires at or after now |
| PlansJs.NoPlanNothing | plans.js:76-86 | no plan is inactive and allows nothing; a bare id counts as active |
| PlansTs.GetPlanConfig | src/plans.ts:58-61 | the named entry, and the `none` entry for a null or unknown name |
| PlansTs.PlansNamed | src/plans.ts:20-56 | every entry is filed under its own name |
| PlansTs.Durations | src/plans.ts:20-56 | only `none` has no length; the others run 3 or 30 days |
| PlansTs.ExtrasFollowFlag | src/plans.ts:68-78 | packs count exactly for the plan flagged to allow extras |
| PlansTs.UnknownPlanNoLinks | src/plans.ts:58-61 | an unknown or missing plan allows no links |
| PlansTs.PlansOrdered | src/plans.ts:20-56 | none < trial < starter < growth < platinum in links allowed |
| PlansTs.ActiveEarlier | src/plans.ts:63-66 | a plan active now was active earlier, and has an expiry date |
| PlansTs.IsPlanActive | src/plans.ts:63-66 | a plan is active exactly when it has an expiry date at or after now |
| PlansTs.EffectiveLinkLimit | src/plans.ts:68-78 | without extras the limit is the plan's base, and with non-negative packs it is never below it |
| PanelI18n.NormLang | panel/app/_lib/i18n.ts:32-39 | a supported trimmed lower-cased code is kept, `pt-br` becomes `pt`, anything else becomes English |
| PanelI18n.CodesLowerAscii | panel/app/_lib/i18n.ts:14-26 | the supported codes are two lower-case ASCII letters |
| PanelI18n.SupportedKept | panel/app/_lib/i18n.ts:32-39 | a supported code padded with whitespace stands for itself |
| PanelI18n.NormLangIdempotent | panel/app/_lib/i18n.ts:32-39 | normalising twice is normalising once |
| PanelI18n.PortugueseIff | panel/app/_lib/i18n.ts:32-39 | the result is `pt` exactly for `pt` and `pt-br` |
| PanelI18n.Fmt | panel/app/_lib/i18n.ts:44-49 | without values the text is unchanged |
| PanelI18n.FmtEmptyVars | panel/app/_lib/i18n.ts:44-49 | an empty table keeps every placeholder |
| PanelI18n.FmtPlaceholder | panel/app/_lib/i18n.ts:44-49 | a known `{k}` is replaced and an unknown one stays |
| PanelI18n.Alias | panel/app/_lib/i18n.ts:1123-1126 | only `active` and `plan` are aliased, to their `_lower` keys |
| PanelI18n.GetStr | panel/app/_lib/i18n.ts:1122-1130 | a present entry under the aliased key is formatted |
| PanelI18n.EnglishFallback | panel/app/_lib/i18n.ts:1128 | a missing entry reads as English |
| PanelI18n.MissingReadsAlias | panel/app/_lib/i18n.ts:1122-1130 | missing in both, the alias itself is returned |
| PanelI18n.AliasesAgree | panel/app/_lib/i18n.ts:1122-1130 | `active` and `plan` read as their aliases |
| BotI18n.CodesOfLangs | api/i18n.js:3-15 | the supported codes are those of the language list, in order |
| BotI18n.CodesLowerAscii | api/i18n.js:3-15 | each code is two lower-case ASCII letters |
| BotI18n.NormalizeLangAsWritten | api/i18n.js:21-38 | as written: the result is supported, and a supported raw code is kept |
| BotI18n.PolishRegionLost | api/i18n.js:25-37 | as written, `pl-PL` becomes English |
| BotI18n.NormalizeLang | api/i18n.js:21-38 | corrected: the result is supported, and a supported raw code is kept |
| BotI18n.RegionBase | api/i18n.js:25-34 | a regional prefix found is a base code followed by `-` |
| BotI18n.RegionDropped | api/i18n.js:25-35 | corrected: every supported code with a region gives that code |
| BotI18n.RegionDroppedAsWritten | api/i18n.js:25-35 | as written, that holds for the bases the source lists |
| BotI18n.AsWrittenAgrees | api/i18n.js:25-35 | the two versions differ only on `pl-` codes |
| BotI18n.UnsupportedEnglish | api/i18n.js:22-23 | empty or unsupported short codes give English |
| BotI18n.NormalizeIdempotent | api/i18n.js:21-38 | normalising twice is normalising once |
| BotI18n.LangButton | api/i18n.js:47-50 | a button shows name and flag and carries `lang:<code>` |
| BotI18n.LangButtons | api/i18n.js:47-50 | one button per language, in order |
| BotI18n.BuildLanguageKeyboard | api/i18n.js:46-54 | the loop builds the buttons in rows of two |
| BotI18n.PairsAt | api/i18n.js:52 | row k holds buttons 2k and 2k + 1, or the last button alone |
| BotI18n.PairsCount | api/i18n.js:52 | there are half as many rows as buttons, rounded up |
| BotI18n.PairsFlatten | api/i18n.js:52 | the rows read in order give back the buttons |
| BotI18n.KeyboardShape | api/i18n.js:46-54 | eleven languages give six rows, the last holding Slovak alone, with callbacks in language order |
| BotI18n.ExtraLang | api/i18n.js:806-808 | the extra table's language is never empty |
| BotI18n.ExtraFirst | api/i18n.js:806-810 | an entry in the extra table wins over the dictionaries |
| BotI18n.DictEnglishFallback | api/i18n.js:813-815 | with no extra table, a key missing in the normalised language reads as English |
| BotI18n.DictTextFallback | api/i18n.js:813-815 | a key missing in the normalised language gives the English dictionary text |
| BotI18n.PolishRegionReadsEnglish | api/i18n.js:812-816 | as written, `pl-PL` reads the English entry even when a Polish one exists |
| BotI18n.T | api/i18n.js:803-817 | without values, an entry of the extra table chosen for the language is returned as it is, else the dictionary text with English fallback |
| BotI18n.MissingKey | api/i18n.js:803-817 | a key found nowhere comes back as itself |
| BillingPage.NormalizePlan | panel/app/billing/page.tsx:24-33 | `basic` gives starter, `pro` gives growth, and unknown codes give free, in any case |
| BillingPage.CodeRoundTrip | panel/app/billing/page.tsx:24-33 | every plan's code normalises back to it |
| BillingPage.AllowedUpgrades | panel/app/billing/page.tsx:35-41 | exactly the paid plans ranked strictly higher, in rank order |
| BillingPage.PlatinumTop | panel/app/billing/page.tsx:35-41 | the list is empty exactly for platinum |
| BillingPage.UpgradesShrink | panel/app/billing/page.tsx:35-41 | an upgrade has fewer upgrades left |
| BillingPage.ClampInt | panel/app/billing/page.tsx:51-55 | a non-finite number gives the default, a finite one itself |
| BillingPage.RoundPercent | panel/app/billing/page.tsx:121 | rounding half up to the nearest integer percentage |
| BillingPage.BillingLimits | panel/app/billing/page.tsx:100-125 | the reassigned limit variables equal the limits definition over the clamped columns |
| BillingPage.RemainingBounds | panel/app/billing/page.tsx:119 | remaining is never negative, and is limit minus enabled when within the limit |
| BillingPage.PercentBounds | panel/app/billing/page.tsx:120-123 | the percentage is in [0, 100], 0 without a limit, and 100 at or over it |
| BillingPage.PercentMonotone | panel/app/billing/page.tsx:120-123 | more enabled links never lower the percentage |
| BillingPage.TotalSources | panel/app/billing/page.tsx:111-117 | a positive stored total wins, except when an add-on adds to a total equal to the base; otherwise the total is base plus extra |
| BillingPage.AddonPacksRoundTrip | panel/app/billing/page.tsx:107-125 | with add-ons, the packs shown are the add-on quantity and the extra links ten per pack |
| BillingPage.ConsistentView | panel/app/billing/page.tsx:100-125 | a consistent row shows its base, extra and total as stored |

## Left out

- File reading and writing in the Python scripts, console output and `process.exit`. Contents are strings
  in and strings out. `sys.exit` is modelled as a result value.
- Translation data: `TRANSLATIONS`, `DICT`, the extra tables and `COMMAND_ALIASES` are parameters. A small
  excerpt stands in where a test names concrete entries.
- TranslatorProofs.PlaceholdersPreserved: assumes that the text holds no `__PH`, that no `_` appears
  between placeholders, and that the table terms and replacements hold no `_`. The source's tables meet
  the last condition.
- TranslatorProofs.UnsupportedLanguageUnchanged: assumes that the text holds no `__PH`. Otherwise a
  literal sentinel in the input would be restored as a placeholder.
- Python's `\w` is approximated by ASCII letters, digits, `_` and the Latin letters U+00C0..U+024F.
  Replacement-string escapes of `re.sub` are not modelled; the tables hold no backslashes.
- Lower-casing covers ASCII, Latin-1 and Latin Extended-A only. There is no other Unicode case folding.
- JavaScript `.length` is modelled as UTF-16 length where the batch cap and the chunk limit need it.
  Strings are otherwise sequences of Unicode scalar values.
- `Number()` and `String()` conversions are not modelled. Numbers are integers, and NaN/Infinity are one
  `NotFinite` value.
- Floating point and `Math.round` are not modelled. RoundPercent is exact rounding of the rational value.
  `parsePrice` is not modelled either.
- Fractional hours in `isHourInQuietRange` are not modelled. A missing or non-number argument is `None`.
- Prototype chains, `hasOwnProperty` and `for ... in` order are not modelled. Objects are field sequences
  read in order, and `JSON.stringify` comparison is sequence equality.
- `try`/`catch` blocks and the bot's missing keyboard are not modelled. A missing keyboard is the JSON null.
- Interpolation values are strings; numbers passed as values are not modelled.
- The panel's `t`/`tf` and their `Proxy` are not modelled: they only wrap `getStr`. `langLabel` in `api/i18n.js`
  is not modelled either, since it is a display lookup.
- ApiWorker.BuildBatchMessage: `formatLinkHeader` is a parameter (`header`). `__fydCleanTitle` is not
  modelled: titles are taken as already clean. `sortItemsNewestFirst` is not modelled: items arrive in
  order.
- The `cleanKey` of `api/worker.js` (the URL-based one near line 361) is not modelled. The modelled
  `cleanKey` is the one in `worker.js`.
- LegacyWorker.SortByIdDesc: the ordering is proved, but the source's comparator and the stability of
  JavaScript's sort are not; equal ids may come out in another order.
- I18nCheck.FindEnglishPhrases: the unused `lang` argument is dropped. The top-level loop of the script
  over languages, and its exit code, are not modelled.
- Plan helpers left out: `buildLimitReachedMessage`, `toTitleCase`, `formatPlanStatus` and `getTrialUsed`.
  `getPlanExpiresAt`'s date parsing is left out too: expiry is an integer in milliseconds.
- Timezone handling, `formatWarsaw`, `planLabel` and page rendering are not modelled. The billing page's
  database queries become the column values they return.
- `plans.js` and `src/plans.ts` differ in their tables and in `isPlanActive`. Both are modelled, each as
  written.
- Translation tables are given as evaluated objects: each key once, in order of first definition. An
  object literal that repeats a key (the `en` table does, for `najnowsze` and six `help_advanced_*` keys) is
  encoded by Json.Literal, which keeps the last value at the first position; the lookups and I18nCheck
  read the evaluated object.
- Deduped: the first login URL is promised to survive only when it does not itself contain `Panel:`. Such a
  URL (its host may hold `Panel:`) makes its own bare line count as a `Panel:` line, so that line is dropped
  and the URL can vanish, as PanelNamedLinkLost shows.
- I18nCheck.StrLeq compares code points, while JavaScript's default sort compares UTF-16 code units. Outside
  the Basic Multilingual Plane the two orders can differ; only the order of the reported tokens is affected,
  not which keys are reported.

## Findings

| source | as written | input that shows it | evidently intended | confidence | as-written member | corrected member |
|---|---|---|---|---|---|---|
| api/i18n.js:21-38 | the regional-prefix rule lists every supported base except `pl`, so a Polish regional code falls through to English | `"pl-PL"` gives `"en"` | `"pl"`, like `"de-DE"` gives `"de"` | not executed | BotI18n.NormalizeLangAsWritten (PolishRegionLost) | BotI18n.NormalizeLang (RegionDropped) |
