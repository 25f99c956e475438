# TranslatePress render pipeline, page cache and DeepSeek translator — a Dafny model

This project models the part of the TranslatePress/DeepSeek WordPress plugin
that renders a translated page:

- `translate_page`, the output-buffer callback that turns a rendered HTML page
  into its translation:
  - the early exits;
  - translation-block matching;
  - resolution of the `trp-gettext` markers, in nodes and inside attribute values;
  - extraction of the translatable strings;
  - positional substitution of the translations;
  - anchor, form and link rewriting;
  - the write into the translated-pages cache.
- The helpers `translate_page` relies on: `force_language_in_preview`,
  `check_children_for_tags`, `find_translation_block` and
  `maybe_correct_translatable_string`.
- `TRP_Translated_Pages_Cache`: a table keyed on `(sha256(url), language)`.
- The `template_redirect` closure that serves a cached page before WordPress renders.
- The SEO title and description generator: keyword normalisation (trim, tag
  stripping and a plain cut to 120 characters), and word-boundary truncation of
  titles to 60 and of descriptions to 155 characters.
- The DeepSeek machine translator:
  - `send_request`'s configuration checks;
  - `translate_array`, which sends 40-entry chunks and maps three tolerated
    response shapes back positionally onto the original keys.

## Structure

One module per file.

| module | what it holds |
|---|---|
| `Wrappers` | `Option`. |
| `Strings` | PHP string semantics:<br>• `strpos(...) !== false` (`Contains`)<br>• `str_replace` with one search string (`ReplaceAll`)<br>• `trim`/`rtrim`/`ltrim` with PHP's default character set |
| `Dom` | The page as simple_html_dom presents it.<br>• A node has a type, a tag, an attribute map with its insertion order, children, a parent, and two override slots.<br>• The slots are filled by assigning `innertext`/`outertext`.<br>• Assigning a text view never restructures the tree; the serialiser prints the override.<br>• The parser, the serialiser, the text views of nodes without an override, and CSS selector matching are the uninterpreted functions of a `Parser` record. |
| `RenderEnv` | Everything `translate_page` takes from outside the class: the request, the settings, and the records `Lib`, `Site`, `Hooks` and `Store`.<br>These records gather the PHP/WordPress helpers, the URL converter, the filters and the query component as function-typed fields. |
| `RenderLanguage` | `force_language_in_preview`. |
| `BlockMatcher` | `check_children_for_tags`, `find_translation_block`, the pre-filtering of the block list, and the effect of a matched block on its row. |
| `RowScan` | The `find('*')` pass: block matching row by row, bucketing of the marker rows by child count, the attribute rows, and the `ksort` order. |
| `MarkerUnwrapper` | Resolution of the marker nodes, bucket by bucket. |
| `AttributeMarkers` | Resolution of markers serialised inside attribute values. |
| `FragmentExtractor` | The no-translate selectors and the three extraction loops, which fill the index-aligned `$translateable_strings` and `$nodes` arrays and `$skip_machine_translating_strings`. |
| `Substitution` | `maybe_correct_translatable_string` and the substitution loop. |
| `LinkRewriter` | Anchors, forms and link tags. |
| `TranslationRender` | `translate_page` end to end: the early exits, the composition of the passes, and the cache write. |
| `PagesCache` | `TRP_Translated_Pages_Cache` as a class holding the table as a map. |
| `CacheLoader` | The serve-or-continue decision. |
| `SeoGenerator` | `TRP_SEO_Generator`. |
| `DeepseekTranslator` | `send_request`, `get_api_key` and `translate_array`. |

### Shape of the model

The page is a value.

- Each loop of `translate_page` that mutates nodes is modelled twice:
  - as a method with the source's loop;
  - as a function over the same sequence of rows.
- Each method is proved equal to its function.
- The properties the code promises are lemmas about the functions.

The page cache is a class whose methods update its `rows` map. Every other
core function is a pure function.

Integers are unbounded. The only integer the code relies on is the row id, which
the cache invariant keeps positive.

### Behaviour the model follows as written

Some of the code does less, or other, than its own comments, names or
neighbouring code suggest. The model follows the code.

- **`check_children_for_tags`** (includes/class-translation-render.php:216-231).
  Its docblock calls it recursive and says it returns a bool. The body discards
  the result of its recursive call, so only direct children are tested. When no
  direct child matches, it falls off the end and returns `null`.
  - A row with a top-parent tag deeper down can therefore still match a block.
  - Together with the guard in `find_translation_block` (lines 245-249), the
    child check after a type-1 match (lines 455-460) can never fire. See
    `BlockMatcher.InnerBlockNeverFound`.
- **Marker ids** (lines 485-500). The marker's `data-trpgettextoriginal` reaches
  the parent, or the `<trp-wrap>`, only when `trp-edit-translation` is
  `preview`. Outside preview the id is dropped with the marker.
- **Form actions** (lines 741-757). The anchor loop forces the language only
  when the current language is not the default (line 727). The form condition
  (lines 749-753) has no such test. Outside preview the default language never
  reaches this loop, because `translate_page` returns early (lines 331-333; see
  `TranslationRender.FinishedOnlyForTranslatedLanguages`). So the difference
  shows only in preview on the default language: form actions are then
  rewritten to the default language's URL while anchors are not.
- **Deprecated blocks in preview** (line 471). `trp-deprecated-tb` is appended to
  the class with no separating space. The type-1 branch at line 465 does put a
  space before `translation-block`.

## Model

| member | source | states |
|---|---|---|
| RenderLanguage.FirstOther | includes/class-translation-render.php:75-80 | The first entry of `translation-languages` that differs from the current language, with every earlier entry equal to it. None exactly when every entry equals the current language. |
| RenderLanguage.ForceLanguageInPreview | includes/class-translation-render.php:67-91 | False when the language is not published, or when it is the default outside preview. A non-default published language is returned unchanged. A sole default language in preview is returned itself. Any result is a published language. |
| RenderLanguage.PreviewPicksFirstOther | includes/class-translation-render.php:73-80 | The default language in preview with several languages yields the first non-default language in list order. |
| RenderLanguage.PreviewWithOnlyDefault | includes/class-translation-render.php:74-90 | When the list repeats only the default language, preview falls through the loop and the result is false. |
| BlockMatcher.CheckChildrenForTags | includes/class-translation-render.php:222-231 | Never false. True exactly when some direct child has one of the tags; otherwise null. |
| BlockMatcher.AnyChildTagged | includes/class-translation-render.php:223-226 | The loop over the children finds a tagged child exactly when one exists. |
| BlockMatcher.FirstMatch | includes/class-translation-render.php:251-255 | The index of the first block whose trimmed original equals the text. None exactly when no block has it. |
| BlockMatcher.FindTranslationBlock | includes/class-translation-render.php:244-259 | Any result is a block of the list, found on a row whose tag is a top parent and no direct child of which has a top-parent tag. Its trimmed original equals the trimmed innertext, and no earlier block matches. Under those conditions a matching block is always found. |
| BlockMatcher.TrimAll | includes/class-translation-render.php:407-409 | The closed-form reference for the trimming loop: every block keeps its fields and gets `trimmed_original = trim_translation_block(original)`. |
| BlockMatcher.KeepPresent | includes/class-translation-render.php:419-423 | A block survives exactly when its trimmed original occurs in the trimmed page text. |
| BlockMatcher.TrimBlocks | includes/class-translation-render.php:407-409 | The loop yields `TrimAll`. |
| BlockMatcher.DropAbsent | includes/class-translation-render.php:419-423 | The `unset` loop yields `KeepPresent`. |
| BlockMatcher.PrepareBlocks | includes/class-translation-render.php:405-424 | The blocks row matching sees are the trimmed blocks present in the trimmed body, or in the whole output when there is no body. |
| BlockMatcher.FindInnerBlock | includes/class-translation-render.php:455-460 | The child loop reports whether some child matches the same block. |
| BlockMatcher.InnerBlockNeverFound | includes/class-translation-render.php:455-460 | On a row that `find_translation_block` matched, no direct child matches the same block, so the child check never fires. |
| BlockMatcher.ApplyBlock | includes/class-translation-render.php:452-473 | A matched block changes only its own row and never the tree's shape. |
| BlockMatcher.TypeOneBlockApplied | includes/class-translation-render.php:462-466 | A type-1 block with no matching child sets the row's innertext to the block's original. It appends ` translation-block` to the class, so the row then has that class. |
| BlockMatcher.ClassAppended | includes/class-translation-render.php:465 | A space-free word appended after a space is one of the class tokens. |
| BlockMatcher.OtherBlocksInertOutsidePreview | includes/class-translation-render.php:467-472 | Outside preview a block of any other type leaves the page unchanged. |
| RowScan.ScanStep | includes/class-translation-render.php:443-475 | One row of the pass changes only that row and never the tree's shape. |
| RowScan.ScanFold | includes/class-translation-render.php:442-476 | The pass keeps the shape and never adds or removes a marker. |
| RowScan.StepKeepsMarkerAttribute | includes/class-translation-render.php:450-473 | Block matching on a non-marker row never makes it a marker. |
| RowScan.ScanStepKeepsMarkers | includes/class-translation-render.php:443-475 | One row of the pass leaves every node's marker status as it was. |
| RowScan.BucketsOfSound | includes/class-translation-render.php:443-444 | Bucket `n` holds only marker rows of the page that have `n` children. |
| RowScan.BucketsOfComplete | includes/class-translation-render.php:443-444 | Every marker row is in the bucket of its child count. |
| RowScan.AttrRowsOfExact | includes/class-translation-render.php:446-448 | The attribute rows are exactly the non-marker rows that are neither root nor text. |
| RowScan.ScanKeepsRow | includes/class-translation-render.php:442-476 | Block matching on earlier rows does not change a later row's marker status, children or node type. So the pass classifies each row as it was in the parsed page. |
| RowScan.MatchRow | includes/class-translation-render.php:450-473 | The statements of the block branch compute one scan step. |
| RowScan.ScanRow | includes/class-translation-render.php:443-475 | One iteration appends a marker row to its bucket or an element row to the attribute rows, and applies block matching. |
| RowScan.ScanRows | includes/class-translation-render.php:440-476 | The loop yields the scanned page, the buckets and the attribute rows of the parsed page. |
| RowScan.SortedKeys | includes/class-translation-render.php:480 | `ksort` lists every bucket key exactly once, in strictly ascending order. |
| RowScan.AscendingKeysUnique | includes/class-translation-render.php:480 | A strictly ascending listing of a key set is unique, so the `ksort` order is determined by the keys. |
| RowScan.Flatten | includes/class-translation-render.php:481-482 | The markers visited bucket by bucket are exactly the members of the listed buckets. |
| RowScan.FlattenSorted | includes/class-translation-render.php:478-482 | Visiting buckets in ascending key order visits markers in non-decreasing child count. |
| RowScan.ProcessingOrder | includes/class-translation-render.php:440-482 | The `ksort`ed walk visits every marker row of the page and nothing else, in non-decreasing child count. |
| MarkerUnwrapper.UnwrapMarkerShape | includes/class-translation-render.php:483-500 | Resolving a marker changes only attributes and overrides, never the tree's structure. |
| MarkerUnwrapper.SoleMarkerDissolves | includes/class-translation-render.php:485-493 | A marker that is its parent's sole content is replaced by its innertext. The parent gets `data-no-translation`. The parent takes the marker's `data-trpgettextoriginal` in preview only. No other node changes. |
| MarkerUnwrapper.OtherMarkerWrapped | includes/class-translation-render.php:494-500 | Any other marker becomes `<trp-wrap class="trp-wrap" data-no-translation ...>…</trp-wrap>`, with the original id in the opening tag exactly in preview. |
| MarkerUnwrapper.WrappedPlain | includes/class-translation-render.php:495-499 | Outside preview the wrapper opens with `data-no-translation>` and closes with `</trp-wrap>`. |
| MarkerUnwrapper.WrappedInPreview | includes/class-translation-render.php:495-499 | In preview the wrapper's opening tag carries `data-trpgettextoriginal="<id>"`. |
| MarkerUnwrapper.OtherMarkerFrame | includes/class-translation-render.php:494-500 | Wrapping a marker touches only the marker itself. |
| MarkerUnwrapper.MarkerIdsStayOutsidePreview | includes/class-translation-render.php:488-491 | Outside preview no node's `data-trpgettextoriginal` changes. |
| MarkerUnwrapper.OtherMarkerNoAttrs | includes/class-translation-render.php:494-500 | Wrapping a marker changes no node's `data-trpgettextoriginal`. |
| MarkerUnwrapper.UnwrapAllShape | includes/class-translation-render.php:481-502 | The whole marker pass keeps the tree's shape. |
| MarkerUnwrapper.UnwrapKeepsOverrides | includes/class-translation-render.php:483-500 | A node whose outertext was already replaced stays replaced. |
| MarkerUnwrapper.AllMarkersResolved | includes/class-translation-render.php:481-502 | Every processed marker with a parent ends with its outertext replaced, so no marker is serialised as written. |
| MarkerUnwrapper.ResolveMarker | includes/class-translation-render.php:482-500 | The statements for one marker compute `UnwrapMarker`. |
| MarkerUnwrapper.ResolveLevel | includes/class-translation-render.php:481-501 | One bucket resolves its markers in order and extends the processed sequence by that bucket. |
| MarkerUnwrapper.ProcessMarkers | includes/class-translation-render.php:478-502 | The `ksort`ed keys are exactly the bucket keys in ascending order. Markers are resolved bucket by bucket in that order, and the page is the result of resolving them in that sequence. |
| AttributeMarkers.NoTranslateFlag | includes/class-translation-render.php:527 | The per-attribute exclusion flag `data-no-translation-<name>` is a different attribute from `<name>`. |
| AttributeMarkers.MarkerIdAttribute | includes/class-translation-render.php:531 | The per-attribute id attribute `data-trpgettextoriginal-<name>` is a different attribute from `<name>`. |
| AttributeMarkers.MarkerStepOnlyRow | includes/class-translation-render.php:520-534 | Resolving one marker of an attribute value changes only the row's attributes. |
| AttributeMarkers.AttributeStepOnlyRow | includes/class-translation-render.php:508-537 | Handling one attribute changes only the row's attributes. |
| AttributeMarkers.AttributesFoldOnlyRow | includes/class-translation-render.php:507-538 | Handling all of a row's attributes changes only that row's attributes. |
| AttributeMarkers.MarkersFoldOnlyRow | includes/class-translation-render.php:519-536 | The loop over the markers of one value changes only the row's attributes. |
| AttributeMarkers.RowsFoldFrame | includes/class-translation-render.php:504-540 | The attribute pass keeps the shape and every override, and leaves rows outside the list untouched. |
| AttributeMarkers.PlainValueUntouched | includes/class-translation-render.php:509 | A value without `trp-gettext ` is left alone. |
| AttributeMarkers.MarkerStepWrites | includes/class-translation-render.php:520-528 | After one marker the attribute holds the re-serialised value, escaped except on script and style. The per-attribute exclusion flag is set. |
| AttributeMarkers.MarkerStepOthers | includes/class-translation-render.php:520-534 | In preview the per-attribute id takes the marker's id. No other attribute of the row changes. |
| AttributeMarkers.MarkersFoldKeepsRow | includes/class-translation-render.php:519-536 | The row stays in the page with its tag, so the escaping decision is the same for every marker. |
| AttributeMarkers.FoldWritesLastCopy | includes/class-translation-render.php:519-536 | After all markers of a value the attribute holds the last serialised copy, with every marker unwrapped, and the flag is set. |
| AttributeMarkers.NoMarkerIdsOutsidePreview | includes/class-translation-render.php:519-536 | Outside preview the loop changes only the attribute and its exclusion flag. |
| AttributeMarkers.ResolveMarkerInValue | includes/class-translation-render.php:520-535 | The statements for one marker compute `MarkerStep`. |
| AttributeMarkers.ResolveMarkersInValue | includes/class-translation-render.php:519-536 | The loop over `find('trp-gettext')` of the parsed value computes `MarkersFold`. |
| AttributeMarkers.ResolveAttribute | includes/class-translation-render.php:508-537 | One attribute: values that decode to JSON or fail to parse are skipped; others are resolved marker by marker. |
| AttributeMarkers.ResolveRowAttributes | includes/class-translation-render.php:505-539 | One row's attributes are handled in insertion order. |
| AttributeMarkers.ResolveAttributeMarkers | includes/class-translation-render.php:504-540 | The loop over the attribute rows computes `RowsFold`. |
| FragmentExtractor.MarkRows | includes/class-translation-render.php:558-560 | Marking rows as untranslatable never restructures the page. |
| FragmentExtractor.MarkRowsFlags | includes/class-translation-render.php:558-560 | Every listed row gets `data-no-translation`, and a row that had it keeps it. |
| FragmentExtractor.MarkSelectorsFlags | includes/class-translation-render.php:557-561 | Flags are only added. The rows the last selector finds are flagged. |
| FragmentExtractor.SelectorMatchFlagged | includes/class-translation-render.php:557-561 | Every selector's matches end up flagged. A row that a selector matched, on the tree the earlier selectors left, is still flagged after the later selectors run. |
| FragmentExtractor.MarkSelectorsAppend | includes/class-translation-render.php:557-561 | Running two lists of selectors one after the other equals running their concatenation. |
| FragmentExtractor.MarkMatches | includes/class-translation-render.php:558-560 | The loop over one selector's matches computes `MarkRows`. |
| FragmentExtractor.MarkUntranslatable | includes/class-translation-render.php:557-561 | The loop over the no-translate selectors computes `MarkSelectors`. |
| FragmentExtractor.SkippedExact | includes/class-translation-render.php:635-637 | A string is in `$skip_machine_translating_strings` exactly when some accepted candidate with that text was excluded from machine translation. |
| FragmentExtractor.BlocksExact | includes/class-translation-render.php:562-577 | Block candidates are exactly the accepted `.translation-block` rows. Each has type `block`, text `trp_full_trim(innertext)`, and is eligible for machine translation. |
| FragmentExtractor.TextKind | includes/class-translation-render.php:595-604 | `button` exactly under a button parent, `option` exactly under an option parent, else `text`. |
| FragmentExtractor.TrptextsExact | includes/class-translation-render.php:579-606 | Text candidates are exactly the accepted `trptext` nodes, each with its outertext trimmed and its kind. |
| FragmentExtractor.AccessorRowsExact | includes/class-translation-render.php:614-639 | For one accessor, the candidates are exactly the accepted rows of its selector, each typed with the accessor key. |
| FragmentExtractor.AccessorsSound | includes/class-translation-render.php:612-641 | Every accessor candidate comes from an accessor with a selector and passed that accessor's filter. |
| FragmentExtractor.Aligned | includes/class-translation-render.php:643-646 | The strings and nodes arrays have equal length and position i holds the same candidate's text and node. |
| FragmentExtractor.ExtractionOrder | includes/class-translation-render.php:562-641 | Candidates come as all blocks, then all `trptext` nodes, then the accessors. |
| FragmentExtractor.Push | includes/class-translation-render.php:572-575 | Each accepted candidate pushes one string and one node, and its text to the skip list if machine translation is refused. |
| FragmentExtractor.PushIf | includes/class-translation-render.php:567-576 | A candidate is pushed exactly when it is accepted. |
| FragmentExtractor.CollectBlocks | includes/class-translation-render.php:562-577 | The block loop appends exactly the accepted blocks, keeping the arrays aligned. |
| FragmentExtractor.CollectTrptexts | includes/class-translation-render.php:579-606 | The `trptext` loop appends exactly the accepted text nodes, keeping the arrays aligned. |
| FragmentExtractor.CollectAccessor | includes/class-translation-render.php:614-639 | The loop over one accessor's selector matches appends exactly its accepted rows. |
| FragmentExtractor.CollectOneAccessor | includes/class-translation-render.php:612-640 | An accessor without a selector adds nothing. |
| FragmentExtractor.CollectAccessors | includes/class-translation-render.php:612-641 | The accessor loop appends each accessor's candidates in table order. |
| FragmentExtractor.Extract | includes/class-translation-render.php:550-641 | The three arrays are the texts, nodes and skipped texts of the ordered candidate list. |
| Substitution.AccessorFor | includes/class-translation-render.php:658-661 | The accessor registered under a type, or none exactly when the type has no entry. |
| Substitution.MaybeCorrect | includes/class-translation-render.php:804-812 | The original when the value contains it. Otherwise its HTML-entity encoding when that is contained. Otherwise the whole value. The result always occurs in the value. |
| Substitution.SubstitutionKeepsSpacing | includes/class-translation-render.php:799-812 | A trimmed original surrounded by blank padding is replaced by the translation and the padding survives. |
| Substitution.SubstitutionFallsBackToWhole | includes/class-translation-render.php:810-811 | When neither form occurs, the whole non-empty value is replaced by the translation. |
| Substitution.StepFrame | includes/class-translation-render.php:656-676 | Substituting candidate i writes only candidate i's node. |
| Substitution.SubstituteShape | includes/class-translation-render.php:656-700 | Substitution never restructures the page. |
| Substitution.SubstituteFrame | includes/class-translation-render.php:656-700 | A node that is no candidate's node is left as it was. |
| Substitution.PreviewOnDefaultSubstitutesNothing | includes/class-translation-render.php:663 | Preview on the default language substitutes nothing. |
| Substitution.NoTranslationsNoChange | includes/class-translation-render.php:657-660 | Without translations the page is unchanged. |
| Substitution.AttributeStepKeepsSpacing | includes/class-translation-render.php:667-670 | An attribute candidate gets `esc_attr(translation)` in place of its original, keeping the padding. |
| Substitution.ViewStepKeepsSpacing | includes/class-translation-render.php:671-674 | A view candidate gets the unescaped translation in place of its original, keeping the padding. |
| Substitution.SubstituteOne | includes/class-translation-render.php:657-676 | The statements for one candidate compute its step. |
| Substitution.SubstituteAll | includes/class-translation-render.php:656-700 | The loop over `$nodes` computes the positional substitution. |
| LinkRewriter.AnchorRows | includes/class-translation-render.php:713 | The anchors visited are exactly the `a` nodes that have an `href` other than `#`. |
| LinkRewriter.AnchorHref | includes/class-translation-render.php:714-736 | An anchor ends with its possibly forced URL, with the processed mark stripped. |
| LinkRewriter.UnforcedKeepsAddress | includes/class-translation-render.php:727 | Any of these leaves the filtered `href` in place, with only the mark stripped: the default language, the setting off, an external link, a URL that already has a language, an admin link, or a processed mark. |
| LinkRewriter.PreviewRecordsOriginalHref | includes/class-translation-render.php:723-725 | In preview a local anchor records the pre-rewrite URL in `data-trp-original-href`. |
| LinkRewriter.NoEditorAttributesOutsidePreview | includes/class-translation-render.php:723-734 | Outside preview neither editor attribute is added. |
| LinkRewriter.RewriteAnchor | includes/class-translation-render.php:714-736 | The statements for one anchor compute its step. |
| LinkRewriter.AnchorsKeys | includes/class-translation-render.php:713-737 | The anchor pass keeps the set of nodes. |
| LinkRewriter.AnchorsFrame | includes/class-translation-render.php:713-737 | Nodes that are not visited anchors are untouched. |
| LinkRewriter.RewriteAnchors | includes/class-translation-render.php:713-737 | The anchor loop computes `Anchors`. |
| LinkRewriter.FormStepEffect | includes/class-translation-render.php:742-757 | A form:<br>• records its action in `data-trp-original-action`;<br>• gets the language input appended to its innertext;<br>• ends with its possibly rewritten action, mark stripped. |
| LinkRewriter.FormActionForcedOnAnyLanguage | includes/class-translation-render.php:749-756 | A non-empty, local, non-admin, unprocessed action is rewritten to the current language when the setting is on, whatever the language. The default language reaches this loop only in preview. |
| LinkRewriter.RewriteForm | includes/class-translation-render.php:742-757 | The statements for one form compute its step. |
| LinkRewriter.FormsKeys | includes/class-translation-render.php:741-758 | The form pass keeps the set of nodes. |
| LinkRewriter.RewriteForms | includes/class-translation-render.php:741-758 | The form loop computes `Forms`. |
| LinkRewriter.LinkTags | includes/class-translation-render.php:760-762 | Stripping link tags never restructures the page. |
| LinkRewriter.LinkTagsOnlyStrip | includes/class-translation-render.php:760-762 | Only `link` nodes change, and an `href` without the mark keeps its value. |
| LinkRewriter.StripLinkTags | includes/class-translation-render.php:760-762 | The loop computes `LinkTags`. |
| TranslationRender.RestoreWithoutSpecialTags | includes/class-translation-render.php:307-310 | Output without escaped special tags passes the four replacements unchanged. |
| TranslationRender.Admit | includes/class-translation-render.php:300-402 | An admitted page parsed into its tree, in a published language, with the language code chosen by `force_language_in_preview`. |
| TranslationRender.AdmitPage | includes/class-translation-render.php:300-402 | The early-exit statements compute `Admit`. |
| TranslationRender.StoppedPageUntouched | includes/class-translation-render.php:300-302 | A page the stop filter claims is returned as given. |
| TranslationRender.RestResponseOnlyStripped | includes/class-translation-render.php:324-327 | A REST response outside a `rest_prepare_` filter only loses the gettext wrappers. |
| TranslationRender.FinishedOnlyForTranslatedLanguages | includes/class-translation-render.php:330-339 | Only a published language, non-default or in preview, reaches the end, and it carries a non-default language code. |
| TranslationRender.AdmittedFinishedCode | includes/class-translation-render.php:334-339 | An admitted page reaches the end only with a non-default code, which it carries. |
| TranslationRender.DefaultCodeOnlyUnwraps | includes/class-translation-render.php:543-549 | With the default language code the page is only unwrapped, saved and stripped of wrappers. |
| TranslationRender.UnwrapPage | includes/class-translation-render.php:403-540 | Block preparation, the scan, the marker pass and the attribute pass compose to `Unwrapped`. |
| TranslationRender.TranslateStrings | includes/class-translation-render.php:551-676 | After the selectors, extraction, the filter and `process_strings`, the page is the positional substitution of the translations. |
| TranslationRender.RewritePageLinks | includes/class-translation-render.php:713-762 | Anchors, forms and link tags are rewritten in that order. |
| TranslationRender.RenderPage | includes/class-translation-render.php:403-774 | An admitted page is rendered as `RenderAdmitted` says. |
| TranslationRender.FinishPage | includes/class-translation-render.php:702-774 | The optional re-parse falls back to the saved markup on failure; otherwise links are rewritten and the wrappers stripped. |
| TranslationRender.TranslatePage | includes/class-translation-render.php:299-794 | The reply is the filtered final markup or the early value. Outside preview, when the cache write succeeds, the cache holds the final markup for `(current URL, language)`. Otherwise the cache is unchanged. |
| PagesCache.Lookup | includes/class-translated-pages-cache.php:55-59 | The content of the row with the key, or null exactly when there is none. |
| PagesCache.Upsert | includes/class-translated-pages-cache.php:62-82 | The key is present with the new content, URL and time. An existing row keeps its id; a new one gets the next id. Every other row is unchanged. |
| PagesCache.DeleteDigest | includes/class-translated-pages-cache.php:85-88 | Exactly the rows with that digest are removed, in every language. |
| PagesCache.TranslatedPagesCache.constructor | includes/class-translated-pages-cache.php:25-30 | The table as `maybe_create_table` first creates it: empty and valid. The object stands for the long-lived table. |
| PagesCache.TranslatedPagesCache.GetCachedPage | includes/class-translated-pages-cache.php:55-59 | Looks up `(hash(url), language)`; null when there is no row. |
| PagesCache.TranslatedPagesCache.SetCachedPage | includes/class-translated-pages-cache.php:62-82 | Upserts `(hash(url), language)`, keeping ids unique and positive. A following get returns the new content. |
| PagesCache.TranslatedPagesCache.InvalidateUrl | includes/class-translated-pages-cache.php:85-88 | Removes the URL's rows in every language; afterwards every get for the URL is null. |
| PagesCache.TranslatedPagesCache.InvalidatePost | includes/class-translated-pages-cache.php:91-96 | A falsy permalink changes nothing; otherwise its URL is invalidated. |
| PagesCache.KeyedOnDigest | includes/class-translated-pages-cache.php:50-88 | Operations key on the digest: URLs with the same digest share rows. |
| PagesCache.UpsertFrame | includes/class-translated-pages-cache.php:62-82 | An upsert leaves every other `(hash, language)` lookup unchanged. |
| PagesCache.DeleteFrame | includes/class-translated-pages-cache.php:85-88 | Invalidation leaves rows with another digest unchanged. |
| CacheLoader.RequestLanguage | includes/front-translation-cache-loader.php:40 | The sanitised GET `lang`, else the sanitised cookie `trp_language`, else the default language. |
| CacheLoader.CacheUrl | includes/front-translation-cache-loader.php:43-44 | `https://` exactly under SSL, then host and request URI. |
| CacheLoader.DecideOn | includes/front-translation-cache-loader.php:9-64 | Serves exactly when every gate passes and the looked-up content is truthy, and then serves that content. Otherwise it continues. |
| CacheLoader.Decide | includes/front-translation-cache-loader.php:56-61 | Served content is what the cache returns for the request's URL and language. |
| CacheLoader.ServedAfterStore | includes/front-translation-cache-loader.php:40-61 | After an upsert of truthy markup under this request's own key, the request is served that markup. The key is the digest of the loader's URL with the loader's detected language. |
| CacheLoader.RenderThenLoad | includes/class-translation-render.php:779-789 | After `translate_page` stores its final markup, a later request is served exactly that markup, provided three things hold: the gates pass, the markup is truthy, and the loader's URL and language equal `cur_page_url()` and the rendering language. |
| CacheLoader.SlugLanguageMissesCache | includes/front-translation-cache-loader.php:39-40 | The request has neither `?lang` nor the cookie, and the page was rendered in a non-default language. The loader then looks under the default language and misses the renderer's row. |
| SeoGenerator.NormalizeKeyword | includes/seo/seo-generator.php:79-86 | At most 120 characters. A prefix of the trimmed, tag-stripped keyword, and the whole of it when it fits. |
| SeoGenerator.DropTrailingWord | includes/seo/seo-generator.php:95 | `preg_replace('/\s+\S*$/u', '')`, with `\s` as PCRE matches it under `/u` (`\p{Z}`, `\h` and `\v`). The result is a prefix of the text before any final newline, and it ends in a non-space. It is unchanged exactly when there is no whitespace. If the text before the final newline has whitespace, the part removed from it is exactly one whitespace run followed by a whitespace-free tail. Otherwise only the final newline goes. |
| SeoGenerator.DropTrailingWordUnique | includes/seo/seo-generator.php:95 | The contract above determines the result: any text with those properties equals `DropTrailingWord`. |
| SeoGenerator.DropTrailingWordExample | includes/seo/seo-generator.php:95 | `"a b c"` becomes `"a b"`: only the partial last word goes. |
| SeoGenerator.DropTrailingWordVowelSeparatorExample | includes/seo/seo-generator.php:95 | `"a" + U+180E + "b"` becomes `"a"`: `\s` under `/u` includes U+180E. |
| SeoGenerator.DropTrailingWordNewlineExample | includes/seo/seo-generator.php:95 | `"a b\n"` becomes `"a"` and `"ab\n"` becomes `"ab"`: `$` matches before a final newline, and the global replacement also removes that newline. |
| SeoGenerator.CutAtWord | includes/seo/seo-generator.php:94-96 | The kept part is the right-trimmed word-boundary cut of the first `room` characters. It is a prefix of them with no trailing blank, and the tail follows it. |
| SeoGenerator.TruncateTitle | includes/seo/seo-generator.php:88-97 | At most 60 characters. A title that fits after trim and strip is returned as is. A longer one is the right-trimmed word-boundary cut of its first 59 characters, followed by `…`. |
| SeoGenerator.TruncateDescription | includes/seo/seo-generator.php:99-107 | At most 155 characters. A description that fits is returned as is. A longer one is the right-trimmed word-boundary cut of its first 152 characters, followed by `...`. |
| SeoGenerator.TruncateTitleIdempotent | includes/seo/seo-generator.php:88-97 | With tag stripping the identity, truncating a truncated title changes nothing. |
| SeoGenerator.TrimmedTitleFixed | includes/seo/seo-generator.php:89-92 | A trimmed title within the limit is a fixed point. |
| SeoGenerator.GenerateTitle | includes/seo/seo-generator.php:34-54 | At most 60 characters. Non-empty LLM output is truncated and used; otherwise `keyword - site` truncated. |
| SeoGenerator.GenerateDescription | includes/seo/seo-generator.php:56-76 | At most 155 characters. Non-empty LLM output is truncated and used; otherwise the template truncated. |
| SeoGenerator.MetaKeysDiffer | includes/seo/seo-generator.php:22-23 | The title and description meta keys never collide. |
| SeoGenerator.StoreSeoMeta | includes/seo/seo-generator.php:22-23 | Exactly the two keys are added or overwritten, with the given values. |
| SeoGenerator.StoreSeoMetaFrame | includes/seo/seo-generator.php:22-23 | Every other meta entry is unchanged. |
| SeoGenerator.SaveSeoMeta | includes/seo/seo-generator.php:18-32 | The two keys hold the generated title and description, within 60 and 155 characters. |
| SeoGenerator.GenerateAndSaveForPost | includes/seo/seo-generator.php:18-24 | Writes exactly `trp_seo_title_<lang>` and `trp_seo_description_<lang>` for the post, generated for object type `post`. |
| SeoGenerator.GenerateAndSaveForTerm | includes/seo/seo-generator.php:26-32 | The same for a term, generated for object type `term`. |
| DeepseekTranslator.SendRequest | includes/deepseek/class-deepseek-machine-translator.php:24-58 | An empty key gives `trp_no_api_key` before anything else. An empty endpoint gives `trp_no_endpoint`. Otherwise one POST with the bearer key, the re-indexed strings and a 20-second timeout. |
| DeepseekTranslator.DefaultEndpointNeverEmpty | includes/deepseek/class-deepseek-machine-translator.php:17-38 | With the built-in default endpoint a configured key always leads to the request. |
| DeepseekTranslator.Chunks | includes/deepseek/class-deepseek-machine-translator.php:78 | Chunks are non-empty, at most 40 entries, and all but the last are full. |
| DeepseekTranslator.ChunksFlatten | includes/deepseek/class-deepseek-machine-translator.php:78 | Concatenating the chunks gives back the input, keys and order included. |
| DeepseekTranslator.ChunkEntriesFromInput | includes/deepseek/class-deepseek-machine-translator.php:78-79 | Every chunk entry comes from the input. |
| DeepseekTranslator.DataValue | includes/deepseek/class-deepseek-machine-translator.php:111-115 | `translatedText` wins over `text`; a missing entry yields nothing. |
| DeepseekTranslator.Positional | includes/deepseek/class-deepseek-machine-translator.php:109-135 | Only chunk keys are written. |
| DeepseekTranslator.PositionalAt | includes/deepseek/class-deepseek-machine-translator.php:109-135 | The chunk's i-th key gets the i-th response value exactly when that value exists. |
| DeepseekTranslator.Decode | includes/deepseek/class-deepseek-machine-translator.php:107-139 | Tries `data`, then `translations`, then `result`, and maps the first shape present positionally onto the chunk's keys. An unknown shape is a failure. |
| DeepseekTranslator.Step | includes/deepseek/class-deepseek-machine-translator.php:91-139 | A WP_Error, a status outside [200,300) or an undecodable body fails the chunk. A success writes only chunk keys. |
| DeepseekTranslator.MergePositional | includes/deepseek/class-deepseek-machine-translator.php:109-135 | The positional loop adds the decoded chunk onto the result so far. |
| DeepseekTranslator.TranslateArray | includes/deepseek/class-deepseek-machine-translator.php:63-149 | The chunk loop computes `TranslateArraySpec`:<br>• empty input or failed verification yields nothing;<br>• the source defaults to the default language and the codes map through `machine_translation_codes`;<br>• any failure discards everything;<br>• an exceeded quota stops with the results so far. |
| DeepseekTranslator.TranslateArrayKeys | includes/deepseek/class-deepseek-machine-translator.php:63-149 | Output keys are always a subset of the input keys. |
| DeepseekTranslator.RunKeys | includes/deepseek/class-deepseek-machine-translator.php:79-146 | The chunk loop adds no foreign key. |
| DeepseekTranslator.FailureDiscardsAll | includes/deepseek/class-deepseek-machine-translator.php:91-139 | A failing chunk after successful ones without quota stop returns an empty array, discarding earlier results. |
| DeepseekTranslator.NoKeyNoTranslations | includes/deepseek/class-deepseek-machine-translator.php:32-34 | Without an API key nothing is translated. |

## Left out

- **HTML parsing and serialisation.**
  - The parser, `save()`, the text views of nodes whose text was not assigned, CSS selector matching, and `trim_translation_block` are uninterpreted functions.
  - So are `htmlentities`, `html_entity_decode`, `htmlspecialchars_decode`, `esc_attr`, `trp_full_trim`, `is_numeric`, `wp_strip_all_tags` and `remove_trp_html_tags`.
  - Nothing is proved about their output.
- **The DOMDocument repair path (lines 372-381)** is one function of the hooks, applied when `trp_try_fixing_invalid_html` is on.
- **The JSON branch (lines 343-366)** is one function of the hooks that yields the reply when the output decodes to JSON different from itself. `translate_json` and the recursive walk over the decoded value are not modelled.
- **Preview annotations.** The `<translate-press>` wrapping and the `data-trp-translate-id-*`/`data-trp-node-*` attributes (lines 652-654, 678-698), `get_node_type_category` and `get_node_description` are not modelled. They are editor metadata driven by filters and string ids.
- **The editor notices (lines 765-769)** are not modelled.
- **`translate_image_srcset_attributes`** (lines 819-847) and the `trp_set_translation_for_attribute` action are not modelled. They are attachment lookups.
- **`handle_rest_api_translations`, `add_callbacks_for_translating_rest_api` and `full_trim`** are not modelled. They are callback glue.
- **Actions.** `do_action` calls are left out because they do not change the page.
- **Opaque components.** `get_all_translation_blocks`, `get_merge_rules`, `get_node_accessors`, `process_strings` and the URL converter are fields of the `Store` and `Site` records.
- **Marker idempotence.** An unwrapped marker keeps its node, with a replaced outertext, as in simple_html_dom. So a second marker pass over the same tree would visit it again. The model proves instead that every processed marker's outertext is replaced (`MarkerUnwrapper.AllMarkersResolved`). It does not prove that the serialised page has no marker left, because the serialiser is an oracle.
- **Parentless markers.** A marker without a parent would make the code call a method on null. The model leaves such a node unchanged.
- **Anchor selection.** `a[href!="#"]` is taken to select only anchors that have an `href` attribute.
- **Filters of the wrong type.** Each filter is a function into the type the code expects. A filter that returns a value of another type is not modelled.
- **PHP loose comparison.**
  - The block search compares trimmed originals with `==` (line 252).
  - The language list and the top-parent tags are tested with `in_array` (lines 69, 224, 245).
  - The model uses exact string equality for all of these. Under PHP 8 two numeric strings compare as numbers, so `"1e2" == "100"` and `"1.0" == "1"`. A block can therefore match a row that the model says it misses.
- **Cache key collation and width.** The cache table takes the site's collation from `get_charset_collate()` (includes/class-translated-pages-cache.php:35). That collation is usually case-insensitive. `PagesCache.Key` uses exact equality, so in the model `fr_FR` and `FR_fr` are different keys. The `varchar(16)` width of `language` is not modelled either.
- **Per-request cache objects.** `new TRP_Translated_Pages_Cache()` runs on every render and every loader request over a table whose rows persist. The model has one long-lived object that stands for the table. `TranslatePage` and `Decide` receive it. Its constructor is the table's first creation by `maybe_create_table`. Construction over existing rows is not modelled.
- **Disagreeing cache keys.** The renderer writes under `cur_page_url()` and the rendering language. The loader reads under `scheme://HTTP_HOST REQUEST_URI` and `?lang`, else the `trp_language` cookie, else the default language. These need not agree. For example, a language taken from a URL slug, with neither `?lang` nor the cookie, misses the cache (`CacheLoader.SlugLanguageMissesCache`). `CacheLoader.RenderThenLoad` proves the hit only when both keys agree.
- **Cache write failures.** Whether the class exists and whether the write throws are one boolean parameter of `TranslatePage`. The current URL is a request field; `is_ssl()`, `HTTP_HOST` and `REQUEST_URI` are fields of the loader's request record.
- **The cache table's SQL.** `dbDelta`, the `SHOW TABLES` check and the column types are not modelled. SHA-256 is an uninterpreted function. `current_time('mysql')` is a parameter.
- **Cache read failures** and a `get_var` that returns a value other than the stored content are not modelled.
- **`echo`/`exit`** in the cache loader is the `Serve` decision.
- **`include_once`.** Loading the cache class file is part of a boolean gate of the loader's runtime record.
- **DeepSeek side effects.** The HTTP call, the translator logger and the quota accounting are oracles. `test_request` is `SendRequest` with fixed arguments and has no member of its own. `verify_request_parameters` is an oracle.
- **JSON.** JSON encoding of the request body and JSON decoding of the response are replaced by the `Body` record of the three tolerated shapes. A body that is not an array is an absent body.
- **SEO filters and i18n.** The LLM filter is an oracle that yields a non-empty string or nothing. The translatable template text from `__()` is a fixed function of the keyword.
- **Context files not modelled:**
  - `includes/class-edd-sl-plugin-updater.php`: licence and update plumbing;
  - `includes/seo/class-primary-keyword.php`: admin UI and meta storage;
  - `includes/seo/term-primary-keyword.php`: admin UI and meta storage.
- **Sanitisation.** `sanitize_text_field` in the cache loader is a parameter.
- **Text encoding.** Strings are sequences of code points, as the `mb_*` functions count them. Byte encodings are not modelled.
