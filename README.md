# MediaWiki userscripts: a Dafny model

This project models the deterministic core of a set of Wikipedia userscripts and proves properties of that model. The scripts are mostly glue around the MediaWiki user interface and API. Each one still holds rules about strings, lists and small records, and those rules are modelled here.

* `parse_ref.dfy` (`ParseRef`): `parse_ref` classifies a reference as a bare URL or a `{{template|key=value|…}}`. It returns the template name, the URL (live or archived, by `url_status`) and the access date.
* `citations.dfy` (`Citations`): the citation span scanner and the author-parameter scanner that author-link.js and src/author-link-vue.js share. It also covers grouping parameters by author index, the existing `author-link` alias check and the candidate list. Each regular expression is written out as a scanner over `seq<char>`.
* `edit_summary.dfy` (`EditSummary`): the edit-summary merge that both author-link scripts carry.
* `apply_link.dfy` (`ApplyLink`): both `apply_link` rewrites of a citation, with the stale-citation check. They come in two versions, as written (through JavaScript's replacement patterns) and as intended (inserting the title literally).
* `author_link.dfy` (`AuthorLink`) and `author_link_vue.dfy` (`AuthorLinkVue`): the panel and the dialog as classes. Their Select, Apply and Skip handlers update the edit box, the citation records, the counters and the summary in place. The handlers rewrite citations as the scripts do, through the as-written `replace` calls; the literal rewrite is what they give when no `$` is involved.
* `filter2.dfy` (`Filter2`): the contribution and history filter. It covers the item records, the option menus, the summary, namespace and tag predicates, and the `applyFilters` loop with its count, its label and its invalid-regex rule.
* `ainb_helper.dfy` (`AinbHelper`): the AINB helper app. It covers grouping edits by article, the tri-state checkboxes, the computed totals, the report text, and the byte and truncation formatters.
* `lint_helper.dfy` (`LintHelper`): the lint count message, the section lookup loop and the context window.
* `url_params.dfy` (`UrlParams`), `usercontribs.dfy` (`UserContribs`), `multi_contribs_ts.dfy` (`MultiContribsTs`) and `multi_contribs_js.dfy` (`MultiContribsJs`): the two multiContribs pages. They cover the form read from and written to the query string, the user list and its limits, the per-user request loop, the newest-first merge and the rendered entries.
* `move_talk_section.dfy` (`MoveTalkSection`): the page-validity test, the heading strip and the three edits a section move makes.
* `js_strings.dfy`, `js_objects.dfy` and `seqs.dfy`: the JavaScript semantics the scripts rely on. They cover the `\s` set and `trim`, `split`/`join`, `indexOf`, `slice`, `parseInt`, the truncating `%`, `$` patterns in `replace`, `Object.keys` order, `new Set` and the stable `sort`.

Where a script updates state in place (a handler that bumps counters, a loop that pushes into a list or sets fields), the model is a class or a method with a loop. Each one is proved against a specification function, and the properties of that function are proved as lemmas. The API, `mw.Title`, the user's regular expression and `localeCompare` are parameters.

## Model

| member | source | states |
|---|---|---|
| ParseRef.Parse | workshop/parse_ref.js:1-65 | a template is never a bare reference; a bare reference has a URL and neither a template name nor an access date; only a template has an access date |
| ParseRef.UrlMatchAt | workshop/parse_ref.js:14 | a match of `https?://\S+` at a position starts with `https://` or `http://` and ends inside the string, after the scheme |
| ParseRef.FirstUrlFrom | workshop/parse_ref.js:14 | the leftmost match at or after a position: no earlier position matches, and none at all when no match is reported |
| ParseRef.FirstUrl | workshop/parse_ref.js:14-18 | `ref.match(...)` is null exactly when no position matches; otherwise it is the text of the leftmost match |
| ParseRef.SplitParam | workshop/parse_ref.js:31-41 | a segment without `=` is dropped; otherwise key and value are the trimmed text before and after its first `=` |
| ParseRef.Params | workshop/parse_ref.js:30-42 | the `map`/`filter` step keeps at most one pair per segment |
| ParseRef.Pair | workshop/parse_ref.js:31-42 | a segment gives one pair exactly when it holds an `=`, and that pair is its split |
| ParseRef.ParamsFromSegments | workshop/parse_ref.js:30-42 | every pair that survives the filter is the split of one of the segments |
| ParseRef.CollectKeys | workshop/parse_ref.js:44-47 | the `reduce` step has a key exactly when some pair has that key |
| ParseRef.Truthy | workshop/parse_ref.js:49-52 | `parameters[k] \|\| null` is a value exactly when the key is present with a non-empty value, and then it is that value |
| ParseRef.SelectUrl | workshop/parse_ref.js:54-60 | the chosen URL is the `url` or the archive URL: a `live` status keeps an existing `url`, an archive URL wins when the status is missing or not `live`, and a missing one of the two gives the other |
| ParseRef.Segments | workshop/parse_ref.js:24 | removing the final `}}` and splitting on `\|` always gives at least the name segment |
| ParseRef.TemplateDetection | workshop/parse_ref.js:10-13 | a template name is reported exactly when the trimmed input starts with `{{` and ends with `}}`, and a template is never a bare reference |
| ParseRef.BareReference | workshop/parse_ref.js:13-20 | a non-template is a bare reference exactly when it contains a URL; the URL is the first match; name and access date stay null |
| ParseRef.NoUrl | workshop/parse_ref.js:13-20 | a non-template without any URL gives the initial object, all null and not bare |
| ParseRef.EmptyInput | workshop/parse_ref.js:2-20 | the empty reference gives the initial object |
| ParseRef.TemplateName | workshop/parse_ref.js:24-28 | the name is the text between the opening `{{` and the first `\|` (or the closing `}}`), trimmed |
| ParseRef.LastDuplicateWins | workshop/parse_ref.js:44-47 | a key takes the value of the last pair that has it |
| ParseRef.CollectAppend | workshop/parse_ref.js:44-47 | reducing a concatenation is the first object overridden by the second |
| ParseRef.SegmentValueWins | workshop/parse_ref.js:30-47 | a segment `key=value` that no later segment overrides gives the trimmed value for the trimmed key, however many `=` the value holds |
| ParseRef.TemplateResult | workshop/parse_ref.js:49-65 | for a template, the URL is the archive URL when present with a non-`live` status (or no URL), else the URL; the access date is `access-date`; it is not bare |
| Citations.HeadEnd | author-link.js:31 | `(?:cite\s+\w+\|citation)\s*\|` read at a position ends just past a `\|` |
| Citations.LazyClose | author-link.js:31 | the lazy `.*?}}` ends just past a `}}` |
| Citations.LazyCloseFirst | author-link.js:31 | the `}}` found is the first one after the start, and no line terminator comes before it (`.` does not match one) |
| Citations.LazyCloseNone | author-link.js:31 | when the lazy tail fails, a line terminator comes before every `}}` |
| Citations.CitationAt | author-link.js:31 | a citation match opens with `{{` and closes with `}}`, with at least one character between |
| Citations.CitationSpans | author-link.js:32 | the global `match` finds each citation at the leftmost place where one starts, resumes where the last one ended, and finds none after the last |
| Citations.ScanSkip | author-link.js:32 | a position where no citation starts can be passed over without changing what the search finds |
| Citations.ScanInOrder | author-link.js:32 | the matches lie inside the text, come in document order without overlapping, and each is a citation match |
| Citations.ScanBounds | author-link.js:32 | every match found lies inside the text after the search start |
| Citations.ScanOrdered | author-link.js:32 | each match ends before the next one starts |
| Citations.ScanMatches | author-link.js:32 | every span found is a citation match |
| Citations.ScanMatchAt | author-link.js:32 | the k-th span found is a citation match |
| Citations.Texts | author-link.js:32 | one text per span, each the substring the span covers |
| Citations.FindCitations | author-link.js:32 | `wikitext.match(citation_regex) \|\| []`: every citation found starts with `{{` and ends with `}}` |
| Citations.MatchText | author-link.js:31 | the text of a citation match starts with `{{` and ends with `}}` |
| Citations.KindLength | author-link.js:63 | the name alternative `author\|last\|first` (any letter case) is 6, 4 or 5 characters long, or absent |
| Citations.ParamAt | author-link.js:63 | a parameter match starts at a `\|`, has a suffix of digits only and a non-empty value free of `\|` and `}` |
| Citations.ValueAt | author-link.js:63 | the value `[^\|}]+` after the `=` is non-empty and free of `\|` and `}`, including the backtracking case where the last space becomes the value |
| Citations.ParamScan | author-link.js:64 | `matchAll` yields only parameters with a non-empty value and a digit suffix |
| Citations.SetPart | author-link.js:69 | `acc[index][type] = v` sets the lower-case property named by the type and no other; a type spelt in another case sets none of the three |
| Citations.IndexKey | author-link.js:67 | `num_str \|\| "1"` is never empty |
| Citations.Group | author-link.js:64-71 | the grouping is a well-formed object whose keys are non-empty |
| Citations.PartOfSetPart | author-link.js:69 | setting one property changes that property and leaves the other two |
| Citations.GroupStepKeys | author-link.js:64-71 | one more parameter adds its index as a key exactly when its trimmed value does not start with `{{` |
| Citations.GroupHasKey | author-link.js:64-71 | every kept parameter gives its index a record (`author` and `author1` both count for index 1) |
| Citations.GroupKeepsKey | author-link.js:64-71 | a record, once made, stays |
| Citations.GroupAddsKey | author-link.js:66-68 | a kept last parameter's index has a record |
| Citations.GroupKeySource | author-link.js:64-71 | every record comes from a kept parameter with that index |
| Citations.GroupStepSets | author-link.js:66-69 | a last kept parameter of a kind at an index sets that part to its trimmed value |
| Citations.GroupStepOther | author-link.js:64-71 | any other last parameter keeps every record and leaves that part as it was |
| Citations.GroupLastWins | author-link.js:64-71 | the last kept parameter of a kind at an index decides that part |
| Citations.GroupLastEarlier | author-link.js:64-71 | the same when that parameter is not the final one |
| Citations.GroupUnset | author-link.js:64-71 | a part that no kept parameter sets stays unset |
| Citations.HasAliasFrom | author-link.js:77-90 | the existing-link regex matches exactly when some position holds `\|`, spaces, one of the link names (any case), spaces and `=` |
| Citations.CandidateFor | author-link.js:73-96 | an index gives a candidate exactly when it has no existing link and its name is longer than the bound; the candidate carries the name and the suffix, which is empty for index 1 |
| Citations.CandidatesOver | author-link.js:73-98 | each candidate comes from one of the keys, carries that key's name, and that key has no link and a long enough name |
| Citations.CandidatesOverComplete | author-link.js:73-98 | every key with a long enough name and no link gives its candidate |
| Citations.CandidateKeys | author-link.js:75 | the key of each candidate, read back from its suffix |
| Citations.CandidatesOverOrdered | author-link.js:73-98 | the map/filter keeps the order of the keys |
| Citations.HeadCandidateOrdered | author-link.js:73-98 | a candidate for the first key can go in front of the later candidates |
| Citations.CandidateKeysFrom | author-link.js:73-98 | the candidates' keys are among the keys |
| Citations.FirstBeforeOthers | author-link.js:73 | in `Object.entries` order the first array-index key is not larger than any later one |
| Citations.ConsOrdered | author-link.js:73 | a key no larger than the later array-index keys keeps the order |
| Citations.CandidatesSound | author-link.js:62-99 | every candidate names an index with a record, no existing link and a name longer than the bound, and carries that name and suffix |
| Citations.CandidatesComplete | author-link.js:62-99 | every index with a record, no existing link and a long enough name gives its candidate |
| Citations.CandidatesInIndexOrder | author-link.js:73 | the candidates come out with their array-index keys ascending, ahead of any other key |
| Citations.ShorterNamesKept | src/author-link-vue.js:224 | the scripts differ only in the bound (`> 2` against `> 1`): each candidate of author-link.js is one of the Vue script, and a Vue candidate is missing from author-link.js exactly when its name has two characters |
| EditSummary.ModifiedAt | author-link.js:433 | a match of `/Modified \d+ citations?/` starts with `Modified `, holds at least one digit and the word, and ends inside the text |
| EditSummary.FirstModifiedFrom | author-link.js:432-433 | the match `replace` rewrites is one that starts at or after the search start |
| EditSummary.FirstModifiedLeftmost | author-link.js:432-433 | no earlier position matches |
| EditSummary.FirstModifiedNone | author-link.js:432-433 | when nothing is found no position matches |
| EditSummary.Plural | author-link.js:421-425 | the noun ends in `s` exactly when the count is not 1 |
| EditSummary.CountedHasNoDollar | author-link.js:434-438 | the replacement count holds no `$`, so `replace` inserts it literally |
| EditSummary.CountedMatches | author-link.js:421-433 | the count the tool writes, followed by a space, is matched by the regex from start to end |
| EditSummary.ModifiedAtPrefix | author-link.js:433 | text after a `;` cannot change a match that starts before it |
| EditSummary.FirstModifiedIs | author-link.js:432-433 | the search finds the first position where the regex matches |
| EditSummary.ChangesSplit | author-link.js:421-425 | the note is the count, a space and the link |
| EditSummary.NoteFound | author-link.js:421-433 | the regex matches the count of a note written after any text |
| EditSummary.ReplaceCount | author-link.js:432-439 | rewriting the first match, which is a count, replaces just that count |
| EditSummary.ReplaceFirst | author-link.js:432-439 | `replace` rewrites the first match's span |
| EditSummary.ReplaceSpanParts | author-link.js:432-439 | replacing the span of a count swaps that count and keeps the text around it |
| EditSummary.CountFirst | author-link.js:432-433 | a match of the count with none in the text before it is the first one |
| EditSummary.ReplaceNote | author-link.js:432-439 | rewriting a summary that ends with the tool's note, with no match before the note, changes only the count |
| EditSummary.ReplaceFirstCount | author-link.js:432-439 | rewriting text whose first match is the count changes only that count |
| EditSummary.UpdateRewrites | author-link.js:429-439 | a non-empty trimmed summary that carries the link takes the rewrite branch |
| EditSummary.NoteTaken | author-link.js:418-431 | a text ending in the note is its own trim and carries the link |
| EditSummary.NoteTrimmed | author-link.js:418 | a text ending in the note and not starting with whitespace is its own trim |
| EditSummary.NoteHasLink | author-link.js:431 | a text ending in the note carries the link |
| EditSummary.UpdateNoteAfter | author-link.js:416-445 | a note written after a text with no match rewrites to the same text with the new count |
| EditSummary.UpdateNote | author-link.js:416-445 | updating the tool's own note rewrites its count |
| EditSummary.UpdateFresh | author-link.js:429-430 | an empty summary gets the note, and updating that again only rewrites the count |
| EditSummary.NoEarlierMatch | author-link.js:440-442 | in `cur; <note>` the first match is the note's when `cur` has none |
| EditSummary.NoMatchBeforeSeparator | author-link.js:440-442 | appending text that starts with `; ` adds no match before it |
| EditSummary.UpdateAppended | author-link.js:416-445 | updating `cur; <note>` rewrites only the note's count |
| EditSummary.UpdateKeepsSummary | author-link.js:440-442 | a summary of the user's own without the link or a count gets `; ` and the note appended, and a second update rewrites only the count |
| EditSummary.Update | author-link.js:416-445 | a summary without the tool's link ends with the note for the count, and a non-empty one keeps its trimmed text followed by `; ` in front |
| ApplyLink.TailStart | author-link.js:396 | `/(\s*}})$/` matches at the leftmost position from which only whitespace and the final `}}` follow |
| ApplyLink.Append | author-link.js:395-398 | a citation that does not end in `}}` is left as it is |
| ApplyLink.AppendAsWritten | author-link.js:395-398 | as written, a citation that does not end in `}}` is left as it is, and otherwise the text before the closing whitespace is kept in front |
| ApplyLink.ParamName | author-link.js:394 | `author-link<N>` is one of the names the replace pattern looks for at that index |
| ApplyLink.AppendShape | author-link.js:395-398 | the insertion keeps the citation: the text before the closing whitespace, then ` \|author-link<N>=<title>`, then the whitespace and `}}` |
| ApplyLink.Apply | author-link.js:399-404 | `None` exactly when the textbox no longer contains the stored citation; otherwise its first occurrence is replaced by the update |
| ApplyLink.ApplyAsWritten | author-link.js:399-404 | the source's text update, with `$` patterns of the update interpreted, changes nothing exactly when the citation is gone |
| ApplyLink.ParamNameHasNoDollar | author-link.js:394 | `author-link<N>` with a digit suffix holds no `$` |
| ApplyLink.TemplateHasNoDollar | author-link.js:397 | the inserted parameter holds no `$` when the title holds none |
| ApplyLink.AppendAgrees | author-link.js:395-398 | without `$` in the title the as-written rewrite is the literal insertion |
| ApplyLink.ApplyAgrees | author-link.js:400-403 | without `$` in the update the as-written text update is the literal one |
| ApplyLink.AppendHasNoDollar | author-link.js:395-398 | the insertion adds no `$` of its own |
| ApplyLink.DollarsHalved | author-link.js:395-398 | as written, a title `$$` is inserted as `$` |
| ApplyLink.DollarTitleAsWritten | author-link.js:395-398 | `{{citation\|a}}` linked to the title `$$` does not get that title |
| ApplyLink.ApplyDollarAsWritten | author-link.js:400-403 | as written, `$&` in the update is replaced by the old citation, while the literal update keeps it |
| ApplyLink.ParamNameLower | author-link.js:394 | the parameter name is lower case |
| ApplyLink.ParamNameIsAlias | author-link.js:77-90 | the inserted name is one of the names the existing-link check looks for at that index |
| ApplyLink.AliasInTemplate | author-link.js:77-90 | ` \|<name>=` written into a citation is found by the existing-link check |
| ApplyLink.LinkedAfterAppend | author-link.js:77-90 | once `author-link<N>` is inserted, the existing-link check finds it |
| ApplyLink.NoCandidateAfterLink | author-link.js:73-98 | so a linked index is no longer a candidate |
| ApplyLink.NameMatch | src/author-link-vue.js:285 | the alternative `(author-?link<N>\|author<N>-?link)` tried in order matches a non-empty name inside the text |
| ApplyLink.ReplaceAt | src/author-link-vue.js:285 | a replace-pattern match at a position: `\|`, spaces, the name, spaces, `=` and a non-empty `[^\|}]+` |
| ApplyLink.FirstReplaceFrom | src/author-link-vue.js:290-294 | the match `replace` rewrites starts at or after the search start |
| ApplyLink.FirstReplaceLeftmost | src/author-link-vue.js:290-294 | no earlier position matches |
| ApplyLink.FirstReplaceNone | src/author-link-vue.js:290 | when nothing is found no position matches, so `test` is false |
| ApplyLink.FirstReplaceIs | src/author-link-vue.js:290-294 | the search finds the first position where the pattern matches |
| ApplyLink.VueUpdateAsWritten | src/author-link-vue.js:288-300 | as written, when the replace pattern matches, the text before and after the first match is kept; when it does not and the citation does not end in `}}`, nothing changes |
| ApplyLink.VueUpdate | src/author-link-vue.js:288-300 | with the title inserted literally, the same: the text around the first match is kept, and a citation with no match and no closing `}}` is left as it is |
| ApplyLink.VueHasNoDollar | src/author-link-vue.js:288-300 | the replace-or-append adds no `$` when neither the title nor the citation holds one |
| ApplyLink.VueAgrees | src/author-link-vue.js:290-300 | without `$` in the title the as-written replace-or-append is the literal one |
| ApplyLink.VueDollarsHalved | src/author-link-vue.js:290-300 | as written, a title `$$` is written as `$` on both paths |
| ApplyLink.VueDollarTitleAsWritten | src/author-link-vue.js:290-294 | relinking `{{citation\|author-link=}}` to `$$` does not give that title |
| ApplyLink.NameMatchIsAlias | src/author-link-vue.js:285 | a replace match is an existing link in the sense of the alias check |
| ApplyLink.LinkNamesAreAliases | src/author-link-vue.js:205 | the replace pattern's names are among the alias check's names |
| ApplyLink.ReplaceIsAlias | src/author-link-vue.js:285 | a replace match at a position is an alias match there |
| ApplyLink.NotAliasedNoReplace | src/author-link-vue.js:200-208 | an index with no existing link has nothing to replace |
| ApplyLink.AliasNamesPlain | author-link.js:77-86 | every alias name of a digit index starts with `a` and holds no space |
| ApplyLink.LinkNamesPlain | src/author-link-vue.js:285 | every replace name of a digit suffix starts with `a` and holds no space |
| ApplyLink.AliasWitness | author-link.js:77-90 | an alias match gives the positions of its `\|`, name and `=` |
| ApplyLink.AliasBeforeBar | author-link.js:77-90 | an alias match that starts before an inserted ` \|` ends before it |
| ApplyLink.AliasInPrefix | author-link.js:77-90 | an alias match inside the old text stays one whatever follows the insertion point |
| ApplyLink.ReplaceAtFirstName | src/author-link-vue.js:285 | the replace pattern matches with its first name written right after the `\|` |
| ApplyLink.LinkNamesHead | src/author-link-vue.js:283-285 | `author-link<N>` is the first alternative of the pattern |
| ApplyLink.InsertedReplaceAt | src/author-link-vue.js:285-298 | in a citation just given ` \|author-link<N>=<t>`, the replace pattern matches that parameter from its `\|` to the `}}` |
| ApplyLink.InsertedMatch | src/author-link-vue.js:285 | `a \|<n>=<t>` followed by closing whitespace matches at the `\|` to the `}}` |
| ApplyLink.TitleRun | src/author-link-vue.js:285 | from inside the title `[^\|}]+` runs to the closing `}}` |
| ApplyLink.NoReplaceInPrefix | src/author-link-vue.js:285-290 | no replace match starts inside text that had no link for the index |
| ApplyLink.NoReplaceUpTo | src/author-link-vue.js:285-290 | nothing before the inserted `\|` matches the replace pattern |
| ApplyLink.FirstReplaceAfter | src/author-link-vue.js:290-294 | a replace match just after unlinked text is the first one |
| ApplyLink.FirstReplaceInserted | src/author-link-vue.js:290-294 | the first replace match of an inserted parameter is that parameter |
| ApplyLink.VueUpdateReplaces | src/author-link-vue.js:290-294 | when the pattern matches, the first match is replaced by `\| author-link<N>=<title>` |
| ApplyLink.VueFirstLink | src/author-link-vue.js:290-300 | the first update of an index with no link is the insertion |
| ApplyLink.RelinkAt | src/author-link-vue.js:290-294 | an update whose match runs from the `\|` to the `}}` keeps the text before and the `}}` |
| ApplyLink.RelinkAfter | src/author-link-vue.js:290-294 | such an update after unlinked text replaces that match |
| ApplyLink.RelinkInserted | src/author-link-vue.js:290-294 | updating a citation holding an inserted parameter replaces that parameter |
| ApplyLink.VueApplyTwice | src/author-link-vue.js:281-310 | linking an unlinked index and then linking it again leaves one parameter with the second title; the whitespace before the closing `}}` is absorbed by the replaced parameter |
| ApplyLink.RelinkAppended | src/author-link-vue.js:290-300 | relinking after author-link.js's insertion replaces the inserted parameter |
| ApplyLink.TailSplit | author-link.js:396 | a citation is the text before its tail match and the tail, which is whitespace then `}}` |
| AuthorLink.MakeItems | author-link.js:34-41 | no more records than citations found |
| AuthorLink.MakeItemsFresh | author-link.js:35-40 | every record holds its citation's extracted authors, at least one, with nothing processed and not modified |
| AuthorLink.ItemsUntouched | author-link.js:34-41 | the records of `process_citations` have at least one author each, zero processed authors and are unmodified |
| AuthorLink.CitationsOf | author-link.js:34-41 | one citation per record, in record order |
| AuthorLink.MakeItemsFilter | author-link.js:34-41 | records are made for exactly the citations with at least one linkable author, in the order found |
| AuthorLink.ConsCitations | author-link.js:34-41 | the citations of a record list start with its first record's |
| AuthorLink.AllRows | author-link.js:179 | the positions shown for a citation are exactly `0 .. n-1`, `n` of them |
| AuthorLink.FreshRows | author-link.js:179 | one row group per record |
| AuthorLink.FreshConsistent | author-link.js:43-59 | a freshly loaded panel (or an empty list that leaves the counters alone) satisfies the panel invariant: counters sum the records, every author row shown |
| AuthorLink.Link | author-link.js:391-406 | when the edit box no longer holds the citation, neither the box nor the stored citation changes; otherwise the stored citation is the as-written insertion (`$` patterns interpreted) and the box is the as-written `replace` of the old citation by it |
| AuthorLink.LinkLiteral | author-link.js:391-406 | with no `$` in the title or the citation, the stored citation is the literal insertion, it takes the place of the first occurrence of the old one, and the box holds it |
| AuthorLink.Step | author-link.js:199-215 | answering an author of a record stores the new citation, keeps the authors, counts one more processed author and marks the record modified |
| AuthorLink.Answered | author-link.js:182-217 | the answered author's row disappears, one more author is completed, and when the box no longer holds the citation the box, the text and the stored citation are unchanged |
| AuthorLink.AnswerKeeps | author-link.js:199-215 | answering a shown author keeps the invariant: one more completed author, the modified count rises the first time only, the completed count rises when the processed count reaches the author count |
| AuthorLink.SkipKeeps | author-link.js:219-226 | skipping a citation that still shows rows keeps the invariant with one more skipped citation |
| AuthorLink.FinishedCount | author-link.js:209-226 | completed plus skipped citations equals the citations that show no row |
| AuthorLink.DoneIff | author-link.js:119 | the "all done" test holds exactly when no citation shows an author row |
| AuthorLink.AnsweredKeeps | author-link.js:182-217 | a shown author is a valid author position, and the state after answering it satisfies the invariant |
| AuthorLink.Panel.constructor | author-link.js:7-19 | empty text and data, all counters zero, the invariant holds |
| AuthorLink.Panel.ProcessCitations | author-link.js:30-60 | records for the citations found in the text, every row shown, counters reset except the modified count (kept when nothing was found), invariant kept |
| AuthorLink.Panel.Show | author-link.js:43-59 | with no records the counters are left alone; otherwise totals are set from the records and completion counts zeroed; the edit and summary boxes are untouched |
| AuthorLink.Panel.Start | author-link.js:25-28 | the text is read from the edit box, then the citations are processed |
| AuthorLink.Panel.Select | author-link.js:182-217 | the new state is exactly the answered state, with the link applied as written: edit box rewritten or untouched, row removed, counters advanced, summary merged on first modification; invariant kept |
| AuthorLink.Panel.Store | author-link.js:182-217 | the handlers' computed state is stored as it is and the invariant holds |
| AuthorLink.Panel.Manual | author-link.js:229-271 | a title that trims to empty changes nothing; any other is applied, as written, as Select applies it |
| AuthorLink.Panel.Skip | author-link.js:219-227 | the citation's rows disappear, the skip count rises by one, nothing else changes, invariant kept |
| AuthorLink.Panel.AllDone | author-link.js:101-124 | with at least one record, "You're all done!" shows exactly when no citation has a row left |
| AuthorLinkVue.ParseCitations | src/author-link-vue.js:159-170 | no more records than citations found |
| AuthorLinkVue.TextsOf | src/author-link-vue.js:162-169 | one citation text per record, in record order |
| AuthorLinkVue.ConsTexts | src/author-link-vue.js:162-169 | the texts of a record list start with its first record's |
| AuthorLinkVue.ParseCitationsFilter | src/author-link-vue.js:159-170 | records are made for exactly the citations with at least one linkable author, in the order found |
| AuthorLinkVue.ParseCitationsFresh | src/author-link-vue.js:163-168 | every record holds its citation's authors, at least one, none linked, with nothing processed, completed, skipped or modified |
| AuthorLinkVue.NewCiteOk | src/author-link-vue.js:163-168 | a fresh record keeps the record invariant and counts as neither completed, skipped nor modified |
| AuthorLinkVue.FreshConsistent | src/author-link-vue.js:116-144 | freshly parsed records satisfy the invariant with the totals `init` sets, and with zero counters when there is none |
| AuthorLinkVue.LinkedKeepsCounts | src/author-link-vue.js:281-319 | `apply_link` leaves counters, summary, every other record and every flag of the chosen record alone |
| AuthorLinkVue.LinkedText | src/author-link-vue.js:281-319 | when the box no longer holds the citation nothing changes; otherwise the stored citation becomes the as-written replace-or-append update (`$` patterns interpreted), the box is the as-written `replace` of the old citation by it, and the text equals the box; with no `$` in the title or the citation the update is the literal one and the box contains it |
| AuthorLinkVue.Linked | src/author-link-vue.js:281-319 | `apply_link` changes nothing when the box no longer holds the citation, and never changes the number of records, the counters or the summary |
| AuthorLinkVue.Tally | src/author-link-vue.js:254-273 | the counting keeps the number of authors, links the chosen one, marks the record modified, and keeps the totals and the skip count |
| AuthorLinkVue.Selected | src/author-link-vue.js:253-274 | selecting keeps the number of records and leaves the chosen one modified |
| AuthorLinkVue.TallyKeepsText | src/author-link-vue.js:253-274 | the counting keeps the citation text and the skip flag |
| AuthorLinkVue.SelectedText | src/author-link-vue.js:253-256 | the edit box, text and stored citation after selecting are those `apply_link` produced |
| AuthorLinkVue.SelectedFirstLink | src/author-link-vue.js:254-262 | an author is counted once, when first linked, and is linked afterwards; the citation's other authors are untouched |
| AuthorLinkVue.SelectedModifiedOnce | src/author-link-vue.js:264-268 | the modified count rises once per citation and the summary is merged exactly then, with the new count |
| AuthorLinkVue.SelectedCompletes | src/author-link-vue.js:270-273 | a citation is completed, and counted so once, exactly when as many authors were processed as it has |
| AuthorLinkVue.SelectedKeepsOthers | src/author-link-vue.js:253-274 | selecting touches only the chosen citation and keeps the totals and the skip count |
| AuthorLinkVue.TallyOk | src/author-link-vue.js:254-273 | the counting keeps a shown record's bookkeeping: processed equals linked authors, completed iff all processed |
| AuthorLinkVue.TallyCounts | src/author-link-vue.js:258-273 | each counter moves by exactly how much the record's own contribution moves |
| AuthorLinkVue.SelectedKeeps | src/author-link-vue.js:253-274 | selecting on a shown citation keeps the invariant: counters equal the sums and counts over the records |
| AuthorLinkVue.LinkedConsistent | src/author-link-vue.js:281-319 | rewriting a citation's text keeps the invariant |
| AuthorLinkVue.TalliedConsistent | src/author-link-vue.js:254-273 | counting a selection on a shown record keeps the invariant |
| AuthorLinkVue.SkippingKeeps | src/author-link-vue.js:276-279 | skipping a shown citation keeps the invariant |
| AuthorLinkVue.FinishedCount | src/author-link-vue.js:99-102 | completed plus skipped counts equals the records that are completed or skipped |
| AuthorLinkVue.AllCompletedIff | src/author-link-vue.js:99-102 | `is_all_completed` holds exactly when every citation is completed or skipped |
| AuthorLinkVue.App.constructor | src/author-link-vue.js:21-41 | a fresh app: empty text and data, zero counters, dialog closed, invariant holds |
| AuthorLinkVue.App.Init | src/author-link-vue.js:116-144 | the text is read from the box and parsed; the dialog opens exactly when there is a record; counters stay zero without one and are set from the records otherwise |
| AuthorLinkVue.App.Load | src/author-link-vue.js:121-143 | with no records the counters stay zero and the dialog closed; otherwise totals are set and the dialog opens |
| AuthorLinkVue.App.Select | src/author-link-vue.js:78-88 | the new state is exactly `select_candidate`'s, with the link applied as written: link, counting and summary merge; the invariant holds and the dialog stays as it was |
| AuthorLinkVue.App.Store | src/author-link-vue.js:253-274 | the handlers' computed state is stored as it is, the invariant holds and the dialog stays as it was |
| AuthorLinkVue.App.Skip | src/author-link-vue.js:276-279 | the citation is marked skipped and counted, nothing else changes, invariant kept |
| AuthorLinkVue.App.IsAllCompleted | src/author-link-vue.js:99-102 | the dialog shows "You're all done!" exactly when every citation is completed or skipped |
| Filter2.DropBrackets | workshop/Filter2.js:60 | removing `[` and `]` leaves no bracket and never lengthens the text |
| Filter2.GetItemData | workshop/Filter2.js:64-74 | one tag per marker, none containing a bracket; no title on page histories or without a title element; the namespace is empty exactly when the title is; the summary is trimmed |
| Filter2.TrimSubstring | workshop/Filter2.js:60 | trimming adds no character |
| Filter2.NamespacesOf | workshop/Filter2.js:81 | one namespace per item, in list order |
| Filter2.EmptyFilterMatches | workshop/Filter2.js:232 | an empty summary filter matches every summary |
| Filter2.PlainSubstringMatches | workshop/Filter2.js:236 | a non-empty plain filter that occurs in the summary matches |
| Filter2.PlainMatchIgnoresCase | workshop/Filter2.js:236 | plain matching gives the same answer whichever side is lower-cased first |
| Filter2.LowerTwice | workshop/Filter2.js:236 | lower-casing is idempotent |
| Filter2.MatchesSummary | workshop/Filter2.js:231-242 | `REGEX_ERROR` is thrown exactly for a non-empty filter in regex mode whose pattern is invalid; an empty filter matches |
| Filter2.ItemErrorIff | workshop/Filter2.js:231-271 | `REGEX_ERROR` is thrown exactly for an item that passes the namespace and tag filters while a non-empty regex filter is invalid |
| Filter2.ItemPassesIff | workshop/Filter2.js:244-271 | an item passes exactly when the namespace filter, the tag filter (with "none" for untagged items) and the summary filter all pass it |
| Filter2.ItemPasses | workshop/Filter2.js:244-271 | an item that passes has passed the namespace and tag filters, and a thrown error comes from an invalid pattern in regex mode |
| Filter2.NoFiltersPass | workshop/Filter2.js:244-271 | with every filter empty every item passes |
| Filter2.InvalidRegexPassesNone | workshop/Filter2.js:284-305 | under an invalid non-empty regex no item passes |
| Filter2.StatsLabelAll | workshop/Filter2.js:309-314 | the label starts "Showing all " exactly when every item is visible |
| Filter2.NsLeTotalPreorder | workshop/Filter2.js:103-105 | the namespace comparator is a total preorder whenever `localeCompare` is |
| Filter2.NamespaceOptions | workshop/Filter2.js:102-113 | the options are the collected namespaces, each as often as it occurs |
| Filter2.MainFirst | workshop/Filter2.js:103-105 | "Main" comes first when present and the rest are in `localeCompare` order |
| Filter2.CodeUnitLeTotal | workshop/Filter2.js:120 | any two strings are comparable in the default `sort` order |
| Filter2.CodeUnitLeTrans | workshop/Filter2.js:120 | the default `sort` order is transitive |
| Filter2.CodeUnitLeTotalPreorder | workshop/Filter2.js:120 | the default `sort` order is a total preorder |
| Filter2.Plain | workshop/Filter2.js:91-93 | a string option has itself as value and label |
| Filter2.DataOf | workshop/Filter2.js:91-93 | the values of options, in order |
| Filter2.SortedTags | workshop/Filter2.js:120 | the tags sorted in default order, a permutation of the collected tags |
| Filter2.TagOptions | workshop/Filter2.js:115-129 | no tag menu exactly when no item has a tag; otherwise "None (untagged)" first, then one option per tag |
| Filter2.TagOptionsSorted | workshop/Filter2.js:118-121 | after the leading option the tags are in default `sort` order |
| Filter2.SortedAfterFirst | workshop/Filter2.js:118-121 | options built from a sorted list after a leading entry are in that order |
| Filter2.TagOptionsAreTags | workshop/Filter2.js:118-121 | the options after the leading one are exactly the collected tags |
| Filter2.FiltersOf | workshop/Filter2.js:274-279 | a missing selector reads as an empty selection |
| Filter2.Reset | workshop/Filter2.js:318-324 | the corrected reset keeps which selectors exist and empties every filter |
| Filter2.ResetHistoryAsWritten | workshop/Filter2.js:319 | on a page history with a summary filter, the reset as written resets nothing, while the corrected one clears the filter |
| Filter2.ResetAgrees | workshop/Filter2.js:318-324 | where a namespace selector exists the written and corrected resets agree |
| Filter2.ResetShowsAll | workshop/Filter2.js:318-324 | after the corrected reset every item passes |
| Filter2.Evaluate | workshop/Filter2.js:281-305 | without a regex error each item is shown exactly when it passes; after one every item is hidden; the count is the number of passing items |
| Filter2.PrefixStep | workshop/Filter2.js:77-85 | one more item adds its namespace and its tags at the end |
| Filter2.Collect | workshop/Filter2.js:76-86 | every item shown; the namespace and tag sets hold each value once, in first-insertion order |
| Filter2.AddTags | workshop/Filter2.js:82 | adding an item's tags to the set gives the first occurrences of all tags so far |
| Filter2.AddTagStep | workshop/Filter2.js:82 | adding one tag to the set is the same as taking first occurrences of the longer list |
| Filter2.Page.constructor | workshop/Filter2.js:37-40 | no items, empty sets, empty widgets, nothing counted |
| Filter2.Page.InitializeData | workshop/Filter2.js:76-86 | the items are recorded and shown, the sets are the first occurrences of their namespaces and tags, nothing else changes |
| Filter2.Page.CreateUI | workshop/Filter2.js:177-189 | empty widgets, with a namespace selector only on contribution pages and a tag selector only when some item has a tag |
| Filter2.Page.ApplyFilters | workshop/Filter2.js:273-316 | the items' display, the visible count and the error message follow the filters read from the widgets, and the label reports the count |
| Filter2.Page.Change | workshop/Filter2.js:148-149 | a widget change re-applies the filters with the new values |
| Filter2.Page.ResetFilters | workshop/Filter2.js:318-324 | with the corrected reset, every filter is cleared, no error shows, every item is visible and the label says all are shown |
| AinbHelper.UpdateSelection | AINB-helper.js:230-236 | recomputing a card keeps its title and edits |
| AinbHelper.SyncedTriState | AINB-helper.js:230-236 | a recomputed card counts its checked edits, is checked exactly when every edit is, and indeterminate exactly when some but not all are |
| AinbHelper.UpdateSelectionTriState | AINB-helper.js:230-236 | recomputing gives the tri-state and is idempotent |
| AinbHelper.WithSelection | AINB-helper.js:240 | setting every checkbox keeps the number of edits |
| AinbHelper.WithSelectionCount | AINB-helper.js:240 | after setting every checkbox to `v`, all or none of the edits are checked |
| AinbHelper.SelectEvery | AINB-helper.js:240 | the loop sets every edit's checkbox to `v` and changes nothing else |
| AinbHelper.ToggledFlips | AINB-helper.js:238-242 | toggling a checked card clears every edit and toggling any other card checks every edit; contributions unchanged, no indeterminate state |
| AinbHelper.Toggled | AINB-helper.js:238-242 | toggling keeps the card's title and contributions and gives every edit the negation of the card's checkbox |
| AinbHelper.TotalCountsSelected | AINB-helper.js:191-193 | the selected-diffs total is the number of checked edits over all cards |
| AinbHelper.AllSelectedIff | AINB-helper.js:195-199 | "Select All" is checked exactly when there is a card and every edit of every card is checked |
| AinbHelper.SomeSelectedIff | AINB-helper.js:201-203 | with no empty card, the indeterminate test holds exactly when some edit is checked |
| AinbHelper.SelectAllIn | AINB-helper.js:246-249 | setting every card keeps the number of cards |
| AinbHelper.SelectAllInShape | AINB-helper.js:244-250 | every card keeps its title and contributions, every edit takes `v`, each card is recomputed and counts all or none |
| AinbHelper.ToggleAllChecks | AINB-helper.js:244-250 | toggling an unchecked "Select All" checks it |
| AinbHelper.ToggleAllClears | AINB-helper.js:244-250 | toggling a checked "Select All" leaves no diff selected |
| AinbHelper.SelectEach | AINB-helper.js:246-249 | the loop sets every card's checkboxes and recomputes every card |
| AinbHelper.SyncAll | AINB-helper.js:336 | recomputing each card keeps the number of cards |
| AinbHelper.UpdateEach | AINB-helper.js:336 | the loop recomputes every card in place |
| AinbHelper.TitlesOf | AINB-helper.js:314-324 | one title per contribution |
| AinbHelper.Stamp | AINB-helper.js:325-331 | one checked edit per contribution |
| AinbHelper.AddEdit | AINB-helper.js:314-332 | adding an edit keeps the dictionary well-formed |
| AinbHelper.Grouped | AINB-helper.js:312-332 | the dictionary built by the loop is well-formed |
| AinbHelper.GroupedStep | AINB-helper.js:314-332 | one more contribution is one more call of the loop body |
| AinbHelper.GroupedKeys | AINB-helper.js:315-324 | the dictionary's keys are the titles in order of first appearance |
| AinbHelper.AbsentTitle | AINB-helper.js:315 | a title that is not yet a key belongs to no earlier contribution |
| AinbHelper.GroupedEdits | AINB-helper.js:314-332 | the card of a title holds exactly the contributions with that title, in order, each checked, with the initial checkbox state |
| AinbHelper.StampSnoc | AINB-helper.js:325-331 | one more contribution adds one checked edit at the end |
| AinbHelper.GroupContribs | AINB-helper.js:312-332 | the loop fills the dictionary as specified |
| AinbHelper.ArticleGroupsSynced | AINB-helper.js:334-336 | every card of a fetch is in the tri-state |
| AinbHelper.ArticleGroups | AINB-helper.js:309-336 | every card of a fetch counts its checked edits and is checked exactly when all its edits are |
| AinbHelper.Arrange | AINB-helper.js:309-336 | the reverted edits are dropped, the rest grouped, `Object.values` taken and every card recomputed |
| AinbHelper.GroupTitles | AINB-helper.js:70 | one title per card |
| AinbHelper.ArticleGroupsCards | AINB-helper.js:309-336 | each card holds every kept contribution of its title in order, all checked, and its checkbox is checked |
| AinbHelper.ArticleGroupsOrder | AINB-helper.js:334 | the cards come in `Object.values` order of the titles as first seen |
| AinbHelper.ArticleGroupsDistinct | AINB-helper.js:312-334 | no two cards share a title |
| AinbHelper.KeptTitleHasCard | AINB-helper.js:309-334 | every kept contribution's title has a card |
| AinbHelper.KeptContribGrouped | AINB-helper.js:309-334 | every kept contribution is a checked edit of its title's card |
| AinbHelper.RevertedContribDropped | AINB-helper.js:309-311 | a contribution tagged `mw-reverted` is in no card |
| AinbHelper.CountGate | AINB-helper.js:271-286 | the fetch proceeds exactly when the count is neither over 20000 nor falsy; over 20000 it stops whatever the answer, with the "too many edits" message only when the user cancels; any other stop carries the "No edits found" message |
| AinbHelper.TokenNumber | AINB-helper.js:271-273 | a token reads as a number exactly when it is a non-empty string of digits, and never when it holds a `\|` |
| AinbHelper.TokenProceeds | AINB-helper.js:271-286 | a real continuation token (`timestamp\|revid`) compares as NaN and is truthy, so the fetch proceeds and no confirmation is asked |
| AinbHelper.NoContinueStops | AINB-helper.js:271-286 | with no continuation, that is with at most one edit in the period, the fetch stops with "No edits found" |
| AinbHelper.OverLimitStops | AINB-helper.js:273-281 | a count read as over 20000 stops the fetch whether or not the user confirms; the message is empty exactly when the user confirms |
| AinbHelper.FormatBytes | AINB-helper.js:443-444 | the size label is never empty |
| AinbHelper.FormatBytesParses | AINB-helper.js:443-444 | the label reads back as the size, a missing size as 0 |
| AinbHelper.FormatBytesPlus | AINB-helper.js:443-444 | the label starts with "+" exactly when the size is positive |
| AinbHelper.SizeClassMatchesLabel | AINB-helper.js:443-446 | the colour class is positive, negative or neutral exactly when the label starts with "+", starts with "-" or is "0" |
| AinbHelper.SizeClass | AINB-helper.js:445-446 | the class is `ainb-pos`, `ainb-neg` or `ainb-neu` exactly when the size (0 when missing) is positive, negative or zero |
| AinbHelper.Truncate | AINB-helper.js:447-448 | a missing text reads ""; a text no longer than `n` is kept; a longer one becomes a prefix of it of `n - 1` characters (none for `n < 1`) followed by "..." |
| AinbHelper.Links | AINB-helper.js:410-415 | one diff link per edit |
| AinbHelper.ReportFrame | AINB-helper.js:407-421 | the report opens with the fixed header and closes the list template |
| AinbHelper.Report | AINB-helper.js:407-421 | the posted text starts with the fixed header |
| AinbHelper.SelectedGroupsFilterFirst | AINB-helper.js:400-405 | narrowing then dropping empty cards equals keeping the cards with a checked edit and narrowing those |
| AinbHelper.SelectedGroupsCount | AINB-helper.js:400-405 | one row per card with a checked edit |
| AinbHelper.SelectedGroupsChecked | AINB-helper.js:400-405 | every row lists at least one edit, and only checked ones |
| AinbHelper.NothingSelectedReport | AINB-helper.js:399-421 | with nothing checked the list is empty |
| AinbHelper.BuildReport | AINB-helper.js:407-421 | the loop builds the header, one row per selected card, then the footer |
| AinbHelper.Helper.constructor | AINB-helper.js:170-181 | step 1, empty name, messages, cards and target |
| AinbHelper.Helper.Reset | AINB-helper.js:219-228 | back to step 1 with empty name, message, cards and target; the normalised name is kept |
| AinbHelper.Helper.UpdateGroupSelection | AINB-helper.js:230-236 | only the chosen card is recomputed |
| AinbHelper.Helper.ClickEdit | AINB-helper.js:89 | the clicked edit's checkbox flips and its card is recomputed; nothing else changes |
| AinbHelper.Helper.ToggleArticle | AINB-helper.js:238-242 | only the chosen card is toggled; the tri-state invariant is kept |
| AinbHelper.Helper.ToggleAll | AINB-helper.js:244-250 | every card takes the toggled "Select All" value; the tri-state invariant is kept |
| AinbHelper.Helper.FetchContributions | AINB-helper.js:252-364 | a stop of the count check leaves its message and nothing else; a failed request shows "Error fetching contributions: " and its message and keeps the cards; otherwise the cards are the grouped kept contributions, with a message when there is none and step 2 with the tracking-page title when there are some |
| AinbHelper.Helper.ShowGroups | AINB-helper.js:334-357 | the cards are stored; none gives the "No contributions" message, some move to step 2 with the tracking-page title |
| AinbHelper.Helper.GenerateReport | AINB-helper.js:399-424 | the posted text is the report of the selected edits and the dialog moves to step 3 |
| LintHelper.IndicatorNoErrors | lintHelper.js:54-59 | the indicator reads "No lint errors" exactly when the error list is missing or empty |
| LintHelper.IndicatorCounts | lintHelper.js:60 | otherwise it starts "Found ", reads back as the number of errors, and ends in the plural "s" exactly when there is more than one |
| LintHelper.IndicatorText | lintHelper.js:54-60 | a missing or empty error list gives "No lint errors", any other a text starting "Found " |
| LintHelper.ParseIntOfNatPrefix | lintHelper.js:60 | a count followed by a space parses back as that count |
| LintHelper.Closest | lintHelper.js:101-108 | the section the scan settles on, when any, is a position in the list |
| LintHelper.ClosestIsClosest | lintHelper.js:101-108 | the scan settles on a qualifying section (own offset, at or before the error's start) that no qualifying section starts after, the first of equal offsets |
| LintHelper.ClosestNone | lintHelper.js:101-109 | the scan finds nothing exactly when no section qualifies |
| LintHelper.FindSectionForError | lintHelper.js:97-110 | the loop returns "0" without a location or section list and otherwise the index of the closest qualifying section, "0" when none qualifies |
| LintHelper.SectionFor | lintHelper.js:97-110 | "0" without a location or a section list; any other answer is the index of a section that qualifies for the error |
| LintHelper.Context | lintHelper.js:220-238 | no context exactly when the error has no location |
| LintHelper.ContextIsWindow | lintHelper.js:233-238 | for offsets in order, the three pieces concatenate to the window from max(0, start-100) to min(length, end+100), the middle is the error's text, and before and after hold at most 100 characters each |
| UrlParams.GetHas | multiContribs.js:183-191 | `get` finds a value exactly when `has` holds |
| UrlParams.GetSnoc | src/multiContribs.ts:362-382 | appending a new pair leaves every earlier name's value alone and makes a new name readable |
| UrlParams.SetNew | src/multiContribs.ts:364-382 | `set` of a name not yet present appends it |
| UrlParams.GetSet | src/multiContribs.ts:364-382 | after `set`, `get` of that name reads the new value and every other name what it read before |
| UrlParams.GetFiltered | src/multiContribs.ts:364-382 | removing one name's pairs leaves every other name's value alone |
| UrlParams.SerializeEmpty | src/multiContribs.ts:384-386 | the serialisation is empty exactly when there are no pairs |
| UrlParams.NewUrlShape | src/multiContribs.ts:384-387 | the new address is the bare path without pairs, and the path, `?` and the pairs otherwise |
| UserContribs.InPresent | multiContribs.js:62-66 | a name survives the null filter exactly when some line parses to it |
| UserContribs.ParseUsersMembers | multiContribs.js:58-68 | a name is in the user list exactly when some line of the trimmed box parses to it |
| UserContribs.ParseUsersFirstOccurrences | multiContribs.js:67 | the user list has no repeats and keeps each name where it first appears |
| UserContribs.ParseUsers | multiContribs.js:58-68 | the user list has no repeats and holds exactly the names some trimmed line parses to |
| UserContribs.RequestFor | multiContribs.js:243-255 | the request names the user and `parseInt` of the limit, carries a namespace or tag exactly when one is chosen, and `ucshow` exactly for page creations |
| UserContribs.Collect | multiContribs.js:242-263 | the loop's outcome is the specified gathering: every stamped contribution in order, or the first failure |
| UserContribs.PushStamped | multiContribs.js:258-261 | the contributions are appended in order, each stamped with the name |
| UserContribs.StampSnoc | multiContribs.js:258-261 | stamping one more contribution appends it stamped |
| UserContribs.AbortedStays | src/multiContribs.ts:433-478 | once a request throws, the outcome stays that failure |
| UserContribs.GatherAborts | src/multiContribs.ts:433-478 | the loop fails exactly when some user's reply throws |
| UserContribs.Gather | src/multiContribs.ts:433-478 | a failed gathering carries the message a requested user's reply threw |
| UserContribs.GatherStamps | src/multiContribs.ts:461-464 | every gathered contribution carries the name of a requested user |
| UserContribs.GatherKeeps | src/multiContribs.ts:460-465 | every contribution a user's reply lists is gathered, stamped with that user's name |
| UserContribs.StampHas | src/multiContribs.ts:461-464 | a listed contribution is among the stamped ones |
| UserContribs.NotOlderTotal | src/multiContribs.ts:468-471 | the newest-first comparator is a total preorder |
| UserContribs.MergedNewestFirst | src/multiContribs.ts:468-471 | the sort keeps every contribution, as often as it occurs, and orders them newest first |
| UserContribs.Merged | src/multiContribs.ts:468-471 | the sort keeps every contribution as often as it occurs, and the length |
| UserContribs.MergedFrom | src/multiContribs.ts:468-471 | the sort adds nothing |
| UserContribs.MergedHas | src/multiContribs.ts:468-471 | the sort loses nothing |
| MultiContribsTs.DefaultLimitAllowed | src/multiContribs.ts:310 | the default limit "50" is one of the menu's limits |
| MultiContribsTs.LoadedLimit | src/multiContribs.ts:310-319 | the limit always ends up a menu limit, and a limit from the query is kept exactly when it is one |
| MultiContribsTs.LoadedNamespace | src/multiContribs.ts:321-329 | a namespace from the query is kept exactly when it is a known id, and is otherwise reset to ""; without one the field is untouched |
| MultiContribsTs.LoadedNewOnly | src/multiContribs.ts:336-340 | `new` checks the box exactly for "1" or "true" |
| MultiContribsTs.LoadedUsers | src/multiContribs.ts:342-347 | a non-empty `users` value lands in the box with every comma turned into a line break |
| MultiContribsTs.LoadedForm | src/multiContribs.ts:307-350 | the loaded limit is the default or a menu limit, the namespace is the form's or a known id, and `new` checks the box exactly for "1" or "true" |
| MultiContribsTs.SetIf | src/multiContribs.ts:364-382 | one conditional `set` appends the pair exactly when the condition holds, keeping names distinct |
| MultiContribsTs.BuildParams | src/multiContribs.ts:362-382 | the `set` calls build the specified pairs |
| MultiContribsTs.GetAppendOpt | src/multiContribs.ts:364-382 | an optional appended pair never hides an earlier name's value |
| MultiContribsTs.EntriesGet | src/multiContribs.ts:364-382 | a name reads the value of its field exactly when that field is not the default |
| MultiContribsTs.Entries | src/multiContribs.ts:364-382 | one pair per field that is not its default: users, limit, namespace, tag and new |
| MultiContribsTs.UrlOmitsDefaults | src/multiContribs.ts:352-388 | the query holds the users, limit, namespace, tag and new fields exactly when they differ from their defaults, with their values |
| MultiContribsTs.UrlRoundTrip | src/multiContribs.ts:307-388 | reading back the written query into a fresh form restores the form (users box tidied to its non-blank lines), and it reloads exactly when there is a user line |
| MultiContribsTs.RoundTripLimit | src/multiContribs.ts:310-319 | an accepted limit survives the round trip |
| MultiContribsTs.RoundTripUsers | src/multiContribs.ts:342-347 | the user lines survive the round trip when no name holds a comma |
| MultiContribsTs.GatesBeforeRequests | src/multiContribs.ts:409-418 | no users, or more than 50, is answered with its notice before any request |
| MultiContribsTs.Outcome | src/multiContribs.ts:390-483 | no users gives "enter users", more than 50 gives "too many users", and a listing comes only from 1 to 50 users |
| MultiContribsTs.OutcomeListing | src/multiContribs.ts:468-473 | a listing shows the merged contributions of a loop that did not fail |
| MultiContribsTs.ListingNewestFirst | src/multiContribs.ts:468-471 | a listing is newest first |
| MultiContribsTs.ItemOf | src/multiContribs.ts:495 | each rendered entry comes from a contribution |
| MultiContribsTs.View | src/multiContribs.ts:495-593 | an entry shows the contribution's revision, title, user, timestamp, page-creation flag and current flag |
| MultiContribsTs.ListingStamped | src/multiContribs.ts:461-464 | every entry names the trimmed name of a user asked |
| MultiContribsTs.ListingComplete | src/multiContribs.ts:436-473 | with no failed request every contribution a user's answer lists is shown under that user's trimmed name |
| MultiContribsTs.FailureReported | src/multiContribs.ts:474-478 | a request that throws ends in the error notice; otherwise the merged list is rendered |
| MultiContribsTs.BytesSign | src/multiContribs.ts:554-560 | the byte label starts with "+" exactly when the page grew |
| MultiContribsTs.BytesParses | src/multiContribs.ts:554-560 | the byte label reads back as the size difference, 0 when it is missing |
| MultiContribsTs.Bytes | src/multiContribs.ts:554-560 | the byte label is never empty and starts with "+" when the page grew |
| MultiContribsTs.RenderShape | src/multiContribs.ts:485-495 | the "No contributions" notice shows exactly for an empty list; a listing has one entry per contribution, in order |
| MultiContribsTs.Render | src/multiContribs.ts:485-495 | the "No contributions" notice shows exactly for an empty list, and a listing has one entry per contribution |
| MultiContribsTs.RenderResults | src/multiContribs.ts:485-593 | the loop renders the specified results |
| MultiContribsTs.MapSnoc | src/multiContribs.ts:495 | one more contribution appends one more entry |
| MultiContribsTs.MultiContribs.constructor | src/multiContribs.ts:96-112 | the form as the page first renders it, an empty results pane, and the query from the address bar |
| MultiContribsTs.MultiContribs.UpdateUrl | src/multiContribs.ts:352-388 | the query becomes the form's pairs; the form and results are kept |
| MultiContribsTs.MultiContribs.LoadContributions | src/multiContribs.ts:390-483 | the results pane shows the outcome, and the query is rewritten exactly when the requests are made |
| MultiContribsTs.MultiContribs.LoadFromUrl | src/multiContribs.ts:307-350 | the form takes the query's values, and a `users` entry loads the contributions; otherwise nothing else changes |
| MultiContribsTs.ItemBytes | src/multiContribs.ts:547-560 | an entry is bold exactly from 500 bytes either way, shows "+" exactly when the page grew, and its label reads back as the size difference, 0 when missing |
| MultiContribsJs.UsersParsed | multiContribs.js:58-68 | a name is listed exactly when some trimmed line normalises to it, and no name is listed twice |
| MultiContribsJs.LoadedLimit | multiContribs.js:184 | any non-empty `limit` is taken as it is, otherwise "50" |
| MultiContribsJs.LoadedFields | multiContribs.js:185-195 | `namespace` and `tag` are taken as they are, `new` checks the box only for "1", `users` lands in the box with commas turned into line breaks, absent fields are untouched |
| MultiContribsJs.LoadedForm | multiContribs.js:182-198 | the limit is never empty, a non-empty query limit is kept as it is, and `new` checks the box exactly for "1" |
| MultiContribsJs.LoadedUnchecked | multiContribs.js:184-190 | unlike the TypeScript page, a limit of 7 is kept (with the form read as strings; a real `<select>` refuses it) and `new=true` leaves the box unchecked |
| MultiContribsJs.UrlOmitsDefaults | multiContribs.js:199-216 | each field is in the query exactly when it is not its default, with its value |
| MultiContribsJs.UrlRoundTrip | multiContribs.js:182-216 | reading back the written query into a fresh form restores the form with one user per line, and it reloads exactly when there are users |
| MultiContribsJs.MissingQuerySkipped | multiContribs.js:257 | only a failed request throws; a reply without `query` lists nothing here, where the TypeScript page throws |
| MultiContribsJs.GatesBeforeRequests | multiContribs.js:223-231 | no users, or more than 50, is answered with its notice before any request |
| MultiContribsJs.Outcome | multiContribs.js:217-283 | no users gives "enter users", more than 50 gives "too many users", and a listing comes only from 1 to 50 users |
| MultiContribsJs.OutcomeListing | multiContribs.js:264-274 | a listing shows the merged contributions of a loop that did not fail |
| MultiContribsJs.ListingNewestFirst | multiContribs.js:264 | a listing is newest first |
| MultiContribsJs.ItemOf | multiContribs.js:270-272 | each rendered entry comes from a contribution |
| MultiContribsJs.ListingStamped | multiContribs.js:258-261 | every entry names one of the users asked |
| MultiContribsJs.ListingComplete | multiContribs.js:242-272 | with no failed request every contribution a user's answer lists is shown under that user's name |
| MultiContribsJs.FailureReported | multiContribs.js:276-278 | a failed request ends in the error notice; otherwise the merged list is rendered |
| MultiContribsJs.Link | multiContribs.js:87 | a wikilink match is longer than its brackets and fits in the text |
| MultiContribsJs.LinkifyAfterPlain | multiContribs.js:87 | text without `[` is copied as it is |
| MultiContribsJs.LinkifyPlain | multiContribs.js:87 | a comment without `[[` is left unchanged |
| MultiContribsJs.LinkifyLabelled | multiContribs.js:87 | `[[page\|label]]` becomes an anchor to the page showing the label |
| MultiContribsJs.LinkifyBare | multiContribs.js:87 | `[[page]]` becomes an anchor to the page showing the page |
| MultiContribsJs.Linkify | multiContribs.js:87 | a comment without `[` is left as it is |
| MultiContribsJs.View | multiContribs.js:70-101 | an entry shows the same fields as on the TypeScript page except the comment, which is empty when missing |
| MultiContribsJs.BytesLabel | multiContribs.js:79-96 | the byte diff is bold exactly from 500 bytes either way, starts with "+" exactly when the page grew, and reads back as the size difference, 0 when missing |
| MultiContribsJs.RenderShape | multiContribs.js:265-272 | the "No contributions" notice shows exactly for an empty list; a listing is one entry per contribution, in order |
| MultiContribsJs.MultiContribs.constructor | multiContribs.js:104-111 | the form as the page first renders it, an empty results pane, and the query from the address bar |
| MultiContribsJs.MultiContribs.UpdateUrl | multiContribs.js:199-216 | the query becomes the pairs for the parsed users and the form |
| MultiContribsJs.MultiContribs.LoadContributions | multiContribs.js:217-283 | the results pane shows the outcome, and the query is rewritten exactly when the requests are made |
| MultiContribsJs.MultiContribs.LoadFromUrl | multiContribs.js:182-198 | the form takes the query's values, and a `users` entry loads the contributions; otherwise nothing else changes |
| MoveTalkSection.TalkNamespaces | src/move-talk-section.js:14-15 | a namespace counts as a talk namespace exactly when it is positive and odd, because `%` truncates; a missing namespace never does |
| MoveTalkSection.IsValidPage | src/move-talk-section.js:13-25 | a page is valid exactly when its namespace is positive and odd or its title is an accepted discussion board |
| MoveTalkSection.FoldsTo | src/move-talk-section.js:20 | case-insensitive matching changes only letters |
| MoveTalkSection.BoardsAtMostOneSubpage | src/move-talk-section.js:19-22 | every accepted board other than a reference-desk subpage has at most one `/` |
| MoveTalkSection.NameAtMostOneSlash | src/move-talk-section.js:20 | every board name other than a reference-desk subpage has at most one `/` |
| MoveTalkSection.ProjectPage | src/move-talk-section.js:20 | a board name after "Wikipedia:" is accepted, in any letter case |
| MoveTalkSection.KnownBoards | src/move-talk-section.js:20 | the Teahouse, the Help desk and every one-line subpage of the Reference desk are accepted |
| MoveTalkSection.Noticeboards | src/move-talk-section.js:20 | a noticeboard whose name's first segment ends in "noticeboard" after a word boundary is accepted, and so is one subpage of it |
| MoveTalkSection.NoticeboardSubSubpage | src/move-talk-section.js:20 | a second subpage under a noticeboard is not accepted |
| MoveTalkSection.ReferenceDeskIsNotNoticeboard | src/move-talk-section.js:20 | a name whose first segment holds "noticeboard" is never a reference-desk subpage |
| MoveTalkSection.NoticeboardTail | src/move-talk-section.js:20 | a noticeboard followed by nothing or by exactly one subpage is accepted |
| MoveTalkSection.RunsOn | src/move-talk-section.js:11-29 | the script runs exactly on pages of a positive odd namespace and on boards whose title, with underscores read as spaces, matches |
| MoveTalkSection.StripHeading | src/move-talk-section.js:388 | the section read without its heading is a suffix of the wikitext |
| MoveTalkSection.StripHeadingOf | src/move-talk-section.js:388 | a `==name==` heading without `=` in its name, then whitespace, is removed and exactly the body is left |
| MoveTalkSection.HeadingParts | src/move-talk-section.js:388 | a matched heading and its whitespace split the wikitext into heading, whitespace and rest |
| MoveTalkSection.StripHeadingCases | src/move-talk-section.js:388 | either nothing is removed, or exactly a leading heading and the whitespace after it |
| MoveTalkSection.PlanShape | src/move-talk-section.js:297-352 | the plan (`Plan`) appends the section to the target, replaces it on the current page, and appends a notice to the poster's talk page exactly when someone is notified |
| MoveTalkSection.MovedFromEndsWithContent | src/move-talk-section.js:301 | the text appended at the target ends with the moved section |
| MoveTalkSection.NotifiedWhen | src/move-talk-section.js:318-341 | the poster is notified exactly when that was asked, a poster was found and their talk page is in namespace 3 |
| MoveTalkSection.StripTitled | src/move-talk-section.js:301-313 | a heading the script writes, with a body that does not start with whitespace, reads back as that body |
| MoveTalkSection.MovedFromReadsBack | src/move-talk-section.js:301 | the text added at the target (`MovedFrom`) starts with two line breaks and, read back as a section, is the back-link line and the moved content |
| MoveTalkSection.MovedToReadsBack | src/move-talk-section.js:313 | read back as a section, what is left of the old section (`MovedTo`) is the pointer to the new place |
| MoveTalkSection.NoticeReadsBack | src/move-talk-section.js:342-349 | the notice (`NoticeText`) starts with two line breaks and, read back as a section, is the greeting |
| MoveTalkSection.MoveSection | src/move-talk-section.js:232-374 | a failed title query ends the move with no edit; an invalid destination is refused, naming the resolved page, exactly when it fails the page test, and nothing is edited; otherwise the edits are the plan up to the first that fails |
| MoveTalkSection.MakeEdits | src/move-talk-section.js:297-359 | the edits are the plan for the resolved target up to and including the first failure, and the move is done exactly when none fails, reporting whether the poster was notified |
| JsStrings.Trim | multiContribs.js:63 | the trimmed string is no longer than the input and neither starts nor ends with whitespace |
| JsStrings.TrimSlice | multiContribs.js:63 | `trim` removes whitespace at both ends and nothing else |
| JsStrings.SplitJoinReplaces | multiContribs.js:193-195 | `split(",")` then `join("\n")` replaces every comma by a line break |
| JsStrings.ParseIntOfNat | src/multiContribs.ts:314 | `parseInt` reads back a decimal string written by `String` |
| JsStrings.JsRem | src/move-talk-section.js:15 | JavaScript's remainder is smaller than the divisor in size and takes the dividend's sign |
| JsStrings.ReplaceFirstJs | author-link.js:395-403 | a `replace` whose pattern string does not occur leaves the string unchanged |
| JsStrings.SubstituteDollarDollar | author-link.js:395-403 | `$$` in a replacement string stands for one `$` |
| JsStrings.SubstituteFirstCapture | author-link.js:288 | `$1` in a replacement stands for the first capture group |
| JsObjects.KeyOrder | AINB-helper.js:312-334 | `Object.values` enumerates each key created, as often as it was created, and no other |
| JsObjects.OwnKeysIndexOrdered | AINB-helper.js:334 | array-index keys come first, in ascending numeric order |
| Seqs.Dedupe | src/multiContribs.ts:401 | `[...new Set(s)]` has no repeats and the same elements as `s` |
| Seqs.DedupeKeepsFirstOccurrences | multiContribs.js:67 | `[...new Set(s)]` keeps exactly the first occurrence of each element, in order |
| Seqs.Sort | multiContribs.js:264 | `sort` with a total preorder returns a sorted permutation of its input |

## Left out

- DOM, jQuery, Vue/Codex and OOUI rendering, HTML markup and CSS: the model keeps only what the handlers read back from the page (which author rows are still shown, which filter widgets exist, the results pane's text or entries).
- Network requests (`mw.Api`, `fetch`, the `uccontinue` pagination, redirect and namespace queries): their answers are parameters or inputs. In `MoveTalkSection.MoveSection` these are a title query, an edit poster and a talk-namespace lookup. In `UserContribs.Collect` it is the reply to each user's request. In `AinbHelper.Helper.FetchContributions` they are the probe's continuation token, the confirmation answer, the normalised user name, the error of a failed request and the collected contributions.
- AinbHelper.TokenNumber: `ToNumber` is modelled for plain digit strings only; other numeric spellings (signs, decimals, exponents, surrounding whitespace) read as NaN. A continuation token the API returns always holds a `|`, so it is NaN either way.
- Awaiting and concurrency: every request is taken to finish before the next handler runs. Disabling and re-enabling buttons, loading flags and progress texts are left out.
- Timers and reloads (`setTimeout`, `location.reload`, `debounce`) and mounting or unmounting the apps.
- `mw.Title.newFromText` and `getPrefixedText` normalisation: a function parameter (`normalize`, `parse`).
- `mw.html.escape`, `highlight_wikitext` and the HTML of list entries: the entries are records of the fields they show.
- The user's regular expression in `Filter2`: a parameter that either yields a test or fails to compile. The rest of the JavaScript regular-expression engine is not modelled.
- `localeCompare`: a total-preorder parameter `lc` in the option sort.
- Dates and timestamps (`format_timestamp`, `formatTimestamp`, `toLocaleDateString`, the current date): timestamps are integers ordered like their instants, and the current date is an input string.
- Panel dragging (`make_moveable`), `get_color` hue and the rgb intensity of the multiContribs entries: window geometry and floating-point colour arithmetic.
- The "Found N contributions" heading and the tag list markup of a multiContribs entry: the listing's length gives N.
- Percent-encoding in `URLSearchParams.toString`: a parameter `encode`. Parsing `location.search` into pairs is not modelled; the query is given as its list of pairs.
- `<select>` elements refusing a value that is none of their options: the form keeps the value it is given.
- Case-insensitive matching (`i` flag, `toLowerCase`) folds ASCII letters only. Every literal the scripts compare against is ASCII, and a non-ASCII character never folds to an ASCII letter in a non-Unicode pattern. Full Unicode case mapping of user text is not modelled.
- Strings are sequences of Unicode scalar values. JavaScript counts UTF-16 code units, so lengths, `slice` offsets and `truncate` differ for characters outside the Basic Multilingual Plane.
- `MultiContribsTs.MissingQueryMessage`: the `TypeError` thrown for a reply without `query` is given V8's wording. Other engines word that message differently.
- `search_author` (the title search behind the candidate buttons), `loadDiff`/`toggleDiff` (diff previews) and the notes field of the AINB report: network lookups and free text with no rule to state.
- `SECTION_AUTHOR_REGEX` (which user started a section) in src/move-talk-section.js: the poster found is an input (`opUser`).
- Sockpuppet-investigation links, the cross-wiki sync scripts, refInfo.js and build_scripts/add_usync_banner.js are not part of this model.
- workshop/parse_ref.test.js is not modelled as code. Its expectations are stated as lemmas of `ParseRef`.
- The older author-link.js always appends a new `author-link<N>` parameter, so applying it twice leaves two parameters. Only src/author-link-vue.js replaces an existing one (`ApplyLink.VueApplyTwice`). The model follows the code.

## Findings

| source | as written | input that shows it | evidently intended | confidence | as-written member | corrected member |
|---|---|---|---|---|---|---|
| author-link.js:395-403 | the title is interpolated into the replacement string of `replace(/(\s*}})$/, …)`, and the rewritten citation is then the replacement string of a second `replace`, so `$$`, `$&`, `` $` `` and `$'` in them are interpreted | the title `$$` in `{{citation\|a}}` writes `author-link=$`; a citation containing `$&` is expanded to the matched citation | the title and the rewritten citation inserted literally | not executed | ApplyLink.DollarTitleAsWritten | ApplyLink.Append |
| author-link.js:399-403 | the rewritten citation replaces the old one as a `replace` template | a citation `c` and an update `x + "$&" + y` give `x + c + y` instead of the update | the update text inserted as it is | not executed | ApplyLink.ApplyDollarAsWritten | ApplyLink.Apply |
| src/author-link-vue.js:290-307 | both the replace and the append path interpolate the title into a `replace` template | the title `$$` in `{{citation\|author-link=}}` writes `$` | the title inserted literally | not executed | ApplyLink.VueDollarTitleAsWritten | ApplyLink.VueApplyTwice |
| workshop/Filter2.js:319 | `resetFilters` calls `widgets.nsSelector.setValue` without the `?.` used for the tag selector, but on a page history no namespace selector is created | Reset on a page history (no namespace selector) throws a `TypeError`, and the summary box is not cleared | every existing widget reset, as `tagSelector?.` does | not executed | Filter2.ResetHistoryAsWritten | Filter2.ResetShowsAll |
