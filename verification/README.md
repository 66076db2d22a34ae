# wp-components in Dafny

A model of the core of wp-components, a WordPress library that builds pages
out of a tree of PHP `Component` objects and serialises the tree for a
JavaScript front end. It covers:

- **The component node** of `WP_Components\Component`:
  - its config, with `{key}_config_has_set` hooks;
  - its children and component groups, with falsy filtering;
  - `children_callback`, validity and themes;
  - `to_array`, with the recursive camelCase key transform and its whitelist and `preserve_inner_keys` filters.
- **The legacy `WP_Component\Component`** and the PHP template helpers that filter and find children.
- **Smaller pieces:**
  - the pagination range arithmetic;
  - content-list backfilling;
  - the Gutenberg block reducer, which merges neighbouring static markup into one HTML component (reusable blocks aside, see below);
  - the menu tree builder;
  - the embed script container;
  - the social-links loop;
  - the render controller's stack and cache arguments.
- **The class autoloaders**, which map a class name to the file paths they probe.

The model is functional. A PHP object becomes an immutable datatype (`Component.Node`, `Legacy.LegacyNode`). A PHP array with string keys becomes an ordered association list (`Assocs.Assoc`), and a config value becomes a small `Value` datatype. A child slot is an `Option<Node>`, where `None` stands for any falsy PHP value. Each mutating method becomes a function that returns the updated node. Class-wide state, such as the embed script container or the render stack, is threaded through as a value. WordPress calls that the code only consumes are function parameters: `parse_blocks`, `render_block`, the oEmbed lookup, `WP_Query` and `class_exists`.

The model follows PHP 8. A PHP fatal error or thrown `Error` is a `Failure` of a `Result`. Examples are `camel_case_string` on a key with no word character, or `set_child_themes` reaching a null child.

Source references are relative to the repository root.

## Model

| member | source | states |
|---|---|---|
| Assocs.Get | inc/wp-components/classes/class-component.php:160-165 | a key reads as present exactly when it is among the array's keys; with unique keys it reads as the value of its entry |
| Assocs.Put | inc/wp-components/classes/class-component.php:142 | assigning to an existing key keeps the key order; assigning to a new key appends one entry at the end |
| Assocs.GetPut | inc/wp-components/classes/class-component.php:142 | after `$m[$k] = $v`, `$k` reads as `$v` and every other key reads as before |
| Assocs.PutUnique | inc/wp-components/classes/class-component.php:142 | assignment keeps the keys of an array unique |
| Assocs.PutKeys | inc/wp-components/classes/class-component.php:142 | after an assignment the keys are the old keys plus the assigned one |
| Assocs.PutEntries | inc/wp-components/classes/class-component.php:142 | after an assignment every entry is an old entry or the assigned one |
| Php.AbsInt | inc/wp-components/classes/class-pagination.php:63-64 | `absint` yields the magnitude of its argument |
| Php.Lower | autoload.php:28-34 | `strtolower` keeps the length and lowers each character on its own |
| Php.UcWords | inc/wp-components/classes/class-component.php:528-533 | `ucwords` keeps the length and raises the first letter of each word |
| Php.ReplaceChar | autoload.php:28-34 | replacing one character by another changes exactly the positions that held it |
| Php.LTrimChar | autoload.php:17 | `ltrim` returns a suffix of its input that does not start with the trimmed character |
| Php.RTrimChar | autoload.php:40 | `rtrim` returns a prefix of its input that does not end with the trimmed character |
| Php.TrimLeft | inc/wp-components/classes/class-gutenberg-content.php:126 | the left half of `trim` returns a suffix that does not start with whitespace |
| Php.TrimRight | inc/wp-components/classes/class-gutenberg-content.php:126 | the right half of `trim` returns a prefix that does not end with whitespace |
| Php.ExplodeRoundTrip | autoload.php:36-40 | imploding the pieces of `explode` with the same delimiter gives back the input |
| Php.ExplodeChars | autoload.php:36 | no piece of `explode` holds the delimiter, and each holds only characters of the input |
| Php.ExplodeWithoutDelimiter | autoload.php:36 | a string without the delimiter explodes to itself alone |
| Php.ExplodeAfter | autoload.php:36 | a first piece without the delimiter is split off whole |
| Php.ImplodeNonEmpty | inc/wp-components/classes/class-component.php:536 | joining with `''` is non-empty when some piece is non-empty |
| Php.ExplodeOnlyDelimiters | inc/wp-components/classes/class-component.php:525 | a string of delimiters explodes into empty pieces only |
| Php.ImplodeOfEmpties | inc/wp-components/classes/class-component.php:536 | joining empty pieces with `''` gives the empty string |
| Php.ReplaceAllAbsent | autoload.php:28-34 | `str_replace` with a needle that does not occur returns the subject unchanged |
| Falsy.Present | inc/wp-components/classes/class-component.php:203 | `array_filter` keeps exactly the present components and never lengthens the list |
| Falsy.PresentAppend | inc/wp-components/classes/class-component.php:198-201 | filtering a concatenation filters each part, in order |
| Falsy.PresentIdempotent | inc/wp-components/classes/class-component.php:462 | filtering an already filtered list changes nothing |
| Falsy.PresentAll | inc/wp-components/classes/class-component.php:203 | a list with no empty slot survives filtering whole, in order |
| Falsy.Keep | wp-components-php/template-tags.php:91-95 | a filtered list holds exactly the elements that pass the test |
| Falsy.KeepAppend | wp-components-php/template-tags.php:91-95 | filtering a concatenation filters each part, in order |
| Falsy.KeepLast | wp-components-php/template-tags.php:122-123 | the last element kept is the last element of the input that passes |
| Falsy.KeepEmptyIff | wp-components-php/template-tags.php:122-126 | the filtered list is empty exactly when no element passes |
| Falsy.LastKept | wp-components-php/template-tags.php:119-126 | `array_pop` of the filtered list is absent exactly when no element passes, and otherwise is the last one that does |
| Component.SetConfig | inc/wp-components/classes/class-component.php:138-152 | a single-key `set_config` runs the key's hook once when it has one and the callback is on, and touches nothing but config and the hook log |
| Component.ReplaceConfig | inc/wp-components/classes/class-component.php:139-140 | the array form makes every key read as in the new array and runs no hook |
| Component.GetConfig | inc/wp-components/classes/class-component.php:160-165 | an absent key reads as null; a present key reads as its stored value |
| Component.GetSetConfig | inc/wp-components/classes/class-component.php:138-165 | the last write to a key wins and every other key reads as before |
| Component.SetConfigReads | inc/wp-components/classes/class-component.php:138-165 | the written key reads as the written value and all other keys are unchanged |
| Component.MergeConfig | inc/wp-components/classes/class-component.php:173-178 | a merge changes only config and hook log |
| Component.MergeConfigLog | inc/wp-components/classes/class-component.php:173-178 | a merge runs exactly the hooks of the merged keys, in merge order |
| Component.MergeConfigGet | inc/wp-components/classes/class-component.php:173-178 | after a merge, merged keys read as the merged values and all other keys read as before |
| Component.Construct | inc/wp-components/classes/class-component.php:85-93 | a new component has the default children unfiltered, only the `default` group, is valid, and keeps its class and name |
| Component.ConstructConfig | inc/wp-components/classes/class-component.php:85-93 | a new component reads each default and has run the hooks of the default keys, in order |
| Component.SetName | inc/wp-components/classes/class-component.php:101-104 | only the name changes |
| Component.SetChildren | inc/wp-components/classes/class-component.php:196-206 | only the children change; the present components afterwards are the old ones, when appending, followed by the new ones, in order; every slot the call adds holds a component, so falsy values are dropped; appending keeps the old children as a prefix |
| Component.AppendChildren | inc/wp-components/classes/class-component.php:214-220 | an empty argument changes nothing; otherwise only the children change, the old children stay a prefix, every added slot holds a component, and the present components are the old ones followed by the new ones in order |
| Component.PrependChildren | inc/wp-components/classes/class-component.php:228-234 | an empty argument changes nothing; otherwise only the children change, the old children stay a suffix, every added slot holds a component, and the present components are the new ones in order followed by the old ones |
| Component.AppendChild | inc/wp-components/classes/class-component.php:242-250 | an empty argument changes nothing; otherwise exactly one slot, the value or element 0 of an array, is added at the end |
| Component.PrependChild | inc/wp-components/classes/class-component.php:258-266 | an empty argument changes nothing; otherwise exactly one slot is added at the front |
| Component.AppendToGroup | inc/wp-components/classes/class-component.php:275-282 | only an existing group changes; it gets the new slots unfiltered at its end; group keys and all other groups stay the same |
| Component.PrependToGroup | inc/wp-components/classes/class-component.php:291-299 | corrected: only an existing group changes, it gets the new slots at its front, and group keys and other groups stay the same |
| Component.PrependToGroupIgnored | inc/wp-components/classes/class-component.php:293 | on an existing group with something to add, the method as written leaves the group unchanged, where the corrected one changes it |
| Component.DefaultGroupPersists | inc/wp-components/classes/class-component.php:41-44 | every constructed component has the `default` group, and no group mutator adds or removes a group key |
| Component.MaybeGetComponentGroup | inc/wp-components/classes/class-component.php:121-127 | a non-empty existing group is returned; otherwise the children are returned |
| Component.ChildrenCallback | inc/wp-components/classes/class-component.php:326-338 | the callback is mapped over the selected list, which keeps its length and its place; the other list and the other groups are untouched |
| Component.SetInvalid | inc/wp-components/classes/class-component.php:345-348 | only the validity flag changes, to false |
| Component.SetValid | inc/wp-components/classes/class-component.php:355-358 | only the validity flag changes, to true |
| Component.HasError | inc/wp-components/classes/class-component.php:384-397 | the component becomes invalid and nothing else changes |
| Component.SetTheme | inc/wp-components/classes/class-component.php:405-417 | `theme_name` becomes the camel-cased theme when it is listed or only `default` is listed, and `default` otherwise; it fails exactly when an allowed theme cannot be camel-cased; nothing else changes |
| Component.SetThemeStable | inc/wp-components/classes/class-component.php:405-417 | where only `default` is listed, setting the stored theme again stores the same value |
| Component.SetThemeAgain | inc/wp-components/classes/class-component.php:405-417 | with any list of themes, setting the stored theme again keeps it exactly when its camel case is allowed, and stores `default` otherwise |
| Component.SetChildThemes | inc/wp-components/classes/class-component.php:426-441 | it fails exactly when the walk meets a null child or an uncamelable theme; otherwise every walked child has `set_theme` applied exactly where the mapping has a non-empty entry for its name, its own `''` selection is walked in turn, the node and every list other than the walked one are unchanged |
| Component.ThemeLists | inc/wp-components/classes/class-component.php:427-438 | the walk selects a non-empty group named after the walk if there is one and the children otherwise, leaves the other list and the other groups alone, and fails exactly when some walked child fails |
| Component.ThemeList | inc/wp-components/classes/class-component.php:431-437 | the loop over one list fails exactly at a null child or a failing child, and otherwise keeps the list's length with each child walked |
| Component.ThemeChild | inc/wp-components/classes/class-component.php:432-436 | one child gets `set_theme` exactly when its name is mapped to a non-empty theme, then its own `''` selection is walked; nothing else about it changes |
| Component.FilterGroups | inc/wp-components/classes/class-component.php:463-468 | every group keeps its key, and its members are filtered |
| Component.ToArray | inc/wp-components/classes/class-component.php:448-470 | it fails exactly when the config cannot be camel-cased; otherwise an invalid component gets `-invalid` appended to its stored name and nothing else changes, and the array holds that name, the camel-cased config, exactly the present children in order, and the filtered groups under the same keys |
| Component.ToArrayTwiceInvalid | inc/wp-components/classes/class-component.php:455-457 | `to_array` is not idempotent on an invalid component: the suffix is appended again |
| Component.ToArrayValidStable | inc/wp-components/classes/class-component.php:448-470 | on a valid component `to_array` changes nothing and repeats its result |
| CamelCase.UcAll | inc/wp-components/classes/class-component.php:528-533 | every word is put through `ucwords` |
| CamelCase.CamelCaseString | inc/wp-components/classes/class-component.php:519-542 | the result is non-empty, has no `_` or `-`, and does not start with an uppercase letter |
| CamelCase.JoinedEmptyIff | inc/wp-components/classes/class-component.php:522-539 | the reassembled string is non-empty exactly when the input has a character other than `_` and `-` |
| CamelCase.JoinedClean | inc/wp-components/classes/class-component.php:522-536 | the reassembled string has no `_` or `-` |
| CamelCase.CamelCaseStringIdempotent | inc/wp-components/classes/class-component.php:519-542 | camel-casing its own output changes nothing |
| CamelCase.CamelCaseKeys | inc/wp-components/classes/class-component.php:478-511 | succeeds exactly when every key that survives the whitelist, at every depth reached, can be camel-cased; the result has unique keys |
| CamelCase.CamelInto | inc/wp-components/classes/class-component.php:483-508 | the loop succeeds under the same condition and keeps keys unique |
| CamelCase.CamelCaseKeysKeys | inc/wp-components/classes/class-component.php:483-508 | the result's keys are exactly the camel-cased keys that survive the whitelist |
| CamelCase.CamelIntoKeys | inc/wp-components/classes/class-component.php:483-508 | the loop's keys are the earlier keys plus the camel-cased surviving keys |
| CamelCase.CamelCaseKeysValue | inc/wp-components/classes/class-component.php:497-507 | the value under a camel-cased key is the last such entry's value, copied when it is a scalar or preserved, and converted when it is another array |
| CamelCase.CamelIntoValue | inc/wp-components/classes/class-component.php:497-507 | the same for the loop from any partial result |
| CamelCase.CamelIntoStep | inc/wp-components/classes/class-component.php:486-507 | one pass of the loop stores the entry's converted value under its camel-cased key and continues |
| CamelCase.CamelIntoUntouched | inc/wp-components/classes/class-component.php:483-508 | a key that no surviving entry is camel-cased to reads as it did before the loop |
| CamelCase.CamelCaseKeysShaped | inc/wp-components/classes/class-component.php:478-511 | the result has unique camelCase keys that come from the whitelist, with the same shape below every array that no preserved key produced |
| CamelCase.CamelCaseKeysOfShaped | inc/wp-components/classes/class-component.php:478-511 | without whitelist or preserved keys, converting an already converted array returns it unchanged |
| CamelCase.CamelCaseKeysIdempotent | inc/wp-components/classes/class-component.php:478-511 | without whitelist or preserved keys, converting twice is converting once |
| Legacy.GetConfig | inc/classes/class-component.php:93-98 | an absent key reads as null; a present key reads as its stored value |
| Legacy.Construct | inc/classes/class-component.php:46-49 | the config is the defaults, assigned whole, and the children are the default children |
| Legacy.ConstructAgrees | inc/classes/class-component.php:46-49 | with the same defaults, the legacy constructor and the new one read the same config |
| Legacy.SetConfig | inc/classes/class-component.php:78-85 | only config changes; a new key is appended and an existing key keeps its place |
| Legacy.GetSetConfig | inc/classes/class-component.php:78-98 | the last write to a key wins and every other key reads as before |
| Legacy.ReplaceConfig | inc/classes/class-component.php:79-80 | the array form makes every key read as in the new array |
| Legacy.SetName | inc/classes/class-component.php:57-60 | only the name changes |
| Legacy.SetChildren | inc/classes/class-component.php:116-126 | only the children change; the present components afterwards are the old ones, when appending, followed by the new ones, in order; every added slot holds a component; appending keeps the old children as a prefix |
| Legacy.AppendChild | inc/classes/class-component.php:134-137 | exactly one slot is appended, even a falsy one, and the old children stay a prefix |
| Legacy.PrependChildAsWritten | inc/classes/class-component.php:145-148 | as written: one slot is added in front and the old children follow |
| Legacy.PrependChildLosesChild | inc/classes/class-component.php:146 | as written, prepending a component leaves the present components unchanged; the corrected version puts the component first |
| Legacy.PrependChild | inc/classes/class-component.php:145-148 | corrected: the given slot goes in front of the old children |
| Legacy.LegacyCamelString | inc/classes/class-component.php:202-214 | the legacy key transform yields a non-empty key with no `_` that starts lowercase; a `-` survives only if the key had one |
| Legacy.CamelStringAgrees | inc/classes/class-component.php:202-214 | on keys without `-`, the legacy transform succeeds exactly when the new one does and gives the same key |
| Legacy.CamelStringDash | inc/classes/class-component.php:202-214 | the legacy transform keeps `a-b`, where the new one gives `aB` |
| Legacy.SnakeExample | inc/classes/class-component.php:202-214 | both transforms turn `a_b` into `aB` |
| Legacy.PlainExample | inc/classes/class-component.php:202-214 | the keys `aB`, `x` and `y` are fixed points of both transforms |
| Legacy.CamelFixedPoint | inc/classes/class-component.php:202-214 | every key the new transform leaves unchanged has a word character and is left unchanged by the first generation too |
| Legacy.CamelCaseKeys | inc/classes/class-component.php:184-226 | from an empty holder the result is an array with unique keys; success implies every kept key has a word character |
| Legacy.CamelInto | inc/classes/class-component.php:190-223 | the loop keeps an array an array with unique keys; with no kept key it returns the holder unchanged; a kept key written into a non-array holder fails |
| Legacy.CamelIntoKeys | inc/classes/class-component.php:190-223 | the loop's keys are the holder's keys plus the transformed kept keys |
| Legacy.CamelIntoAppend | inc/classes/class-component.php:190-223 | the loop over two runs of entries is the loop over the second started from the result of the first, and a fault in the first is the fault of the whole |
| Legacy.CamelIntoUntouched | inc/classes/class-component.php:190-223 | a key that no kept entry is camel-cased to reads as it did in the holder |
| Legacy.CamelIntoValue | inc/classes/class-component.php:190-223 | the value under a camel-cased key is set by the last kept entry naming it: a scalar is stored as is, a nested array is converted with the same whitelist into what the earlier entries left under that key |
| Legacy.FlatAgrees | inc/classes/class-component.php:184-226 | on flat arrays whose keys have no `-`, the legacy loop and the new one agree |
| Legacy.FlatConfigAgrees | inc/classes/class-component.php:184-226 | on such arrays the legacy `camel_case_keys` equals the new one |
| Legacy.FlatSucceeds | inc/classes/class-component.php:190-223 | on flat arrays the loop succeeds exactly when every kept key has a word character |
| Legacy.NestedMerge | inc/classes/class-component.php:187-221 | two nested arrays whose keys transform alike are merged: the second is converted into the converted first |
| Legacy.NestedOverwrite | inc/wp-components/classes/class-component.php:506 | the new transform instead keeps only the last of two such arrays |
| Legacy.ToArray | inc/classes/class-component.php:169-175 | it fails exactly when the config cannot be camel-cased; otherwise the array holds the name, the camel-cased config with unique keys, and exactly the present children in order; on a flat config it fails exactly when a kept key has no word character |
| Pagination.PaginationDefaultConfig | inc/wp-components/classes/class-pagination.php:29-37 | a new pagination component is named `pagination` and reads its defaults |
| Pagination.Page | inc/wp-components/classes/class-pagination.php:64-67 | the page is `absint(paged)` and at least 1 |
| Pagination.RecordRange | inc/wp-components/classes/class-pagination.php:69-79 | `total` is set, `range_start` is `end - ppp + 1`, `range_end` is clamped to the total, and nothing else changes |
| Pagination.QueryHasSet | inc/wp-components/classes/class-pagination.php:44-82 | the items are appended; `total` is `absint(found_posts)` or 0; `range_start + ppp` is one past `page * ppp`; `range_end` is `page * ppp` clamped to the total; other keys are untouched |
| Pagination.RangeWithinTotal | inc/wp-components/classes/class-pagination.php:77-79 | `0 <= range_end <= total` |
| Pagination.RangeSizeInside | inc/wp-components/classes/class-pagination.php:69-79 | on a page inside the results, the range spans exactly `posts_per_page` entries |
| Pagination.RangeInvertedIff | inc/wp-components/classes/class-pagination.php:70-79 | `range_start > range_end` exactly when `posts_per_page` is 0 or the page starts past the results |
| ContentList.Backfill | inc/wp-components/traits/trait-content-list.php:133-152 | the ids stay a prefix; nothing is added when `backfill_to` does not exceed their count; otherwise the query's posts follow |
| ContentList.BackfillBound | inc/wp-components/traits/trait-content-list.php:136-149 | with a query that returns at most the requested number of posts, the result has at most `max(count($ids), backfill_to)` ids |
| ContentList.BackfillDistinct | inc/wp-components/traits/trait-content-list.php:141-148 | distinct ids stay distinct when the query returns distinct posts outside `post__not_in` |
| ContentList.MapIds | inc/wp-components/traits/trait-content-list.php:29-33 | the item method is mapped over the ids, position by position |
| ContentList.ContentListItems | inc/wp-components/traits/trait-content-list.php:21-35 | no item method gives `[]`; otherwise the result holds exactly the non-empty items of the ids |
| ContentList.ContentListItemsAppend | inc/wp-components/traits/trait-content-list.php:29-34 | the items of two id lists are the items of each, in order |
| ContentList.ParseFromPostIds | inc/wp-components/traits/trait-content-list.php:46-58 | the items of the backfilled ids are appended after the existing children and nothing else changes |
| ContentList.ParseFromPostIdsOrder | inc/wp-components/traits/trait-content-list.php:46-58 | the given ids' items come before the backfilled ones |
| GutenbergContent.HtmlNode | inc/wp-components/classes/class-gutenberg-content.php:185 | a new HTML component holds the given content |
| GutenbergContent.AppendCounts | inc/wp-components/classes/class-gutenberg-content.php:115-166 | appending a component adds its markup, or counts one more other component |
| GutenbergContent.Extend | inc/wp-components/classes/class-gutenberg-content.php:180-183 | extending an HTML component appends the content to its markup |
| GutenbergContent.Merge | inc/wp-components/classes/class-gutenberg-content.php:175-189 | a trailing HTML component is extended in place and the length is unchanged; otherwise, including on an empty list, one new HTML component is appended |
| GutenbergContent.MergeText | inc/wp-components/classes/class-gutenberg-content.php:175-189 | merging adds the content to the markup and no other component |
| GutenbergContent.MergeNoAdjacent | inc/wp-components/classes/class-gutenberg-content.php:175-189 | merging never puts two HTML components next to each other |
| GutenbergContent.FilterBlocks | inc/wp-components/classes/class-gutenberg-content.php:60-75 | exactly the kept blocks survive |
| GutenbergContent.FilterBlocksDrops | inc/wp-components/classes/class-gutenberg-content.php:60-75 | a block is dropped exactly when it has no inner blocks and its markup is one or more whitespace characters; a block with empty markup is kept |
| GutenbergContent.FilterBlocksAppend | inc/wp-components/classes/class-gutenberg-content.php:60-75 | filtering keeps the order of the blocks |
| GutenbergContent.StripControls | inc/wp-components/classes/class-gutenberg-content.php:132 | the result holds exactly the characters of the input other than tab and the vertical whitespace of PCRE's `\v` with the `u` modifier (LF, VT, FF, CR, U+0085, U+2028 and U+2029), so it never grows |
| GutenbergContent.StripControlsAppend | inc/wp-components/classes/class-gutenberg-content.php:132 | stripping works character by character, keeping the order of what it keeps |
| GutenbergContent.StripControlsClean | inc/wp-components/classes/class-gutenberg-content.php:132 | markup without those characters is left unchanged |
| GutenbergContent.StripControlBytes | inc/wp-components/classes/class-gutenberg-content.php:132 | as written, on bytes: the result holds exactly the bytes of the input other than 0x09 to 0x0D and 0x85 |
| GutenbergContent.Utf8 | inc/wp-components/classes/class-gutenberg-content.php:132 | a character encodes to one to four bytes, and to one byte exactly when it is ASCII |
| GutenbergContent.StripControlBytesAscii | inc/wp-components/classes/class-gutenberg-content.php:132 | on ASCII markup the byte pattern removes exactly the characters the character-level strip removes |
| GutenbergContent.StripControlBytesSplitsLetters | inc/wp-components/classes/class-gutenberg-content.php:132 | as written the byte pattern turns the UTF-8 of `Å` and of Cyrillic `х` into a lone lead byte, while the character-level strip keeps them |
| GutenbergContent.EmbedNamesEmbed | inc/wp-components/classes/class-gutenberg-content.php:116-122 | a name starting with `core-embed` or `core/embed` takes the embed branch |
| GutenbergContent.ExceptionsNotRendered | inc/wp-components/classes/class-gutenberg-content.php:99-105 | `core/columns` and `core/column` are never rendered as markup |
| GutenbergContent.DynamicBlock | inc/wp-components/classes/class-gutenberg-content.php:158-162 | a dynamic block becomes a plain component named after the block, whose present children are exactly the converted inner blocks |
| GutenbergContent.DynamicBlockConfig | inc/wp-components/classes/class-gutenberg-content.php:158-162 | a dynamic component's config reads each key as the block's attribute and absent keys as null |
| GutenbergContent.Own | inc/wp-components/classes/class-gutenberg-content.php:115-164 | an embed or dynamic block gets a component that is not HTML and only appends to the script container, keeping its entries distinct; a dynamic one is a plain component named after the block |
| GutenbergContent.Convert | inc/wp-components/classes/class-gutenberg-content.php:89-167 | a step only appends to the script container and keeps its entries distinct |
| GutenbergContent.Reduce | inc/wp-components/classes/class-gutenberg-content.php:77 | the same for the whole reduction |
| GutenbergContent.ConvertAppendsOne | inc/wp-components/classes/class-gutenberg-content.php:115-166 | an embed or dynamic block appends exactly one non-HTML component: for an embed, the embed component set from the block with its scripts; for a dynamic block, the component named after it whose config reads as its attributes and whose children are its reduced inner blocks |
| GutenbergContent.OwnAll | inc/wp-components/classes/class-gutenberg-content.php:77-166 | there is one component of its own per embed or dynamic block |
| GutenbergContent.ConvertOthers | inc/wp-components/classes/class-gutenberg-content.php:89-167 | a step keeps the earlier non-HTML components in order and adds the block's own component exactly when it is an embed or dynamic block |
| GutenbergContent.ConvertMerges | inc/wp-components/classes/class-gutenberg-content.php:107-135 | a classic or rendered block goes to the HTML merge |
| GutenbergContent.ConvertShape | inc/wp-components/classes/class-gutenberg-content.php:89-167 | each step adds the block's markup or one other component, leaves earlier components alone and keeps HTML components apart, given that reusable blocks are never resolved |
| GutenbergContent.ReduceShape | inc/wp-components/classes/class-gutenberg-content.php:77 | the reduction's markup is the blocks' markup in order; it adds one component per embed or dynamic block; HTML components stay apart, given that reusable blocks are never resolved |
| GutenbergContent.ReduceOthers | inc/wp-components/classes/class-gutenberg-content.php:77 | the non-HTML components of the reduction are exactly the blocks' own components, in block order, and the script container is the one they thread |
| GutenbergContent.ParseAndConvertAsWritten | inc/wp-components/classes/class-gutenberg-content.php:42-80 | as written: without `parse_blocks` the method fails; otherwise it reduces the filtered blocks |
| GutenbergContent.ClassicFallback | inc/wp-components/classes/class-gutenberg-content.php:45-54 | without `parse_blocks` the method as written fails; the corrected method returns one HTML component holding the filtered content |
| GutenbergContent.ParseAndConvert | inc/wp-components/classes/class-gutenberg-content.php:42-80 | corrected: without `parse_blocks`, one HTML component holds the filtered content; otherwise the result is the reduction |
| GutenbergContent.ParseAndConvertShape | inc/wp-components/classes/class-gutenberg-content.php:56-79 | the markup is the kept blocks' markup in order, there is one other component per embed or dynamic block, and no two HTML components are adjacent, given that reusable blocks are never resolved |
| GutenbergContent.ParseAndConvertOthers | inc/wp-components/classes/class-gutenberg-content.php:56-79 | the non-HTML components are exactly the own components of the kept blocks, in order, with the script container they thread |
| GutenbergContent.PostHasSet | inc/wp-components/classes/class-gutenberg-content.php:29-33 | the converted blocks are appended after the existing children |
| CoreEmbed.CoreEmbedDefaultConfig | inc/wp-components/classes/blocks/class-core-embed.php:34-41 | a new embed component is named `core-embed` and reads its defaults |
| CoreEmbed.WithScript | inc/wp-components/classes/blocks/class-core-embed.php:49-58 | afterwards the script's `src` is held, the held sources are the old ones plus it, the old scripts stay a prefix, and distinct sources stay distinct |
| CoreEmbed.AddScript | inc/wp-components/classes/blocks/class-core-embed.php:49-58 | the scan with early return computes `WithScript` |
| CoreEmbed.WithScriptIdempotent | inc/wp-components/classes/blocks/class-core-embed.php:51-55 | adding the same script twice is adding it once |
| CoreEmbed.WithScripts | inc/wp-components/classes/blocks/class-core-embed.php:99-107 | adding several scripts keeps the old ones as a prefix, keeps sources distinct, and holds exactly the old and new sources |
| CoreEmbed.GetScriptsDrains | inc/wp-components/classes/blocks/class-core-embed.php:65-69 | a second `get_scripts` right after the first returns nothing |
| CoreEmbed.Provider | inc/wp-components/classes/blocks/class-core-embed.php:114 | the provider is the attribute when it is set and not null, and `''` otherwise |
| CoreEmbed.SetFromBlock | inc/wp-components/classes/blocks/class-core-embed.php:77-118 | without oEmbed markup nothing changes; otherwise the provider and content are set, the URL in the decoded markup is replaced, the markup's scripts are added, and nothing else changes |
| TemplateTags.FilterChildren | wp-components-php/template-tags.php:90-96 | holds exactly the children whose config value is identical to the given one; fails on a null child |
| TemplateTags.FilterChildrenAppend | wp-components-php/template-tags.php:90-96 | the children are kept in order |
| TemplateTags.FilterNullSelectsMissing | wp-components-php/template-tags.php:92-94 | filtering for null selects a child that lacks the key |
| TemplateTags.FilterChildrenByName | wp-components-php/template-tags.php:104-110 | holds exactly the children with the given name |
| TemplateTags.FilterChildrenByNameAppend | wp-components-php/template-tags.php:104-110 | the children are kept in order |
| TemplateTags.FindChild | wp-components-php/template-tags.php:119-127 | fails exactly when a child is null; otherwise false exactly when no child matches, and the last matching child when one does |
| TemplateTags.FindChildByName | wp-components-php/template-tags.php:135-143 | false exactly when no child has the name; otherwise the last that has it |
| RenderController.Top | wp-components-php/inc/classes/class-render-controller.php:188 | `end` of the stack is false exactly on an empty stack, and otherwise the last renderable |
| RenderController.Push | wp-components-php/inc/classes/class-render-controller.php:177-180 | the renderable goes on top and becomes current |
| RenderController.Pop | wp-components-php/inc/classes/class-render-controller.php:186-189 | the top is removed (nothing on an empty stack) and the current renderable is the new top |
| RenderController.PopPush | wp-components-php/inc/classes/class-render-controller.php:177-189 | a pop undoes a push exactly when the current renderable was the top |
| RenderController.RenderInstance | wp-components-php/inc/classes/class-render-controller.php:136-147 | after a template that leaves its own push in place, the stack is as before and the current renderable is the top |
| RenderController.RenderInstanceRestores | wp-components-php/inc/classes/class-render-controller.php:136-147 | with a balanced template, the controller is left as it was |
| RenderController.NestedRenderBalanced | wp-components-php/inc/classes/class-render-controller.php:136-147 | a render nested in a balanced template is itself balanced |
| RenderController.CacheKey | wp-components-php/inc/classes/class-render-controller.php:197-199 | the key is `partial_` followed by the digest of the argument |
| RenderController.WithKeyGet | wp-components-php/inc/classes/class-render-controller.php:83-85 | an empty `key` reads as the derived key afterwards, a set one is kept, and other settings read as before |
| RenderController.WithTtlGet | wp-components-php/inc/classes/class-render-controller.php:88-90 | a missing or null `ttl` reads as 900 afterwards, a set one is kept, and other settings read as before |
| RenderController.NormalizeCache | wp-components-php/inc/classes/class-render-controller.php:76-80 | there are cache settings exactly when `$cache` is truthy |
| RenderController.NormalizeCacheGet | wp-components-php/inc/classes/class-render-controller.php:76-90 | with caching on, `true` becomes an array with a derived key and the default ttl, and an array keeps its own key, ttl and other settings |
| RenderController.CacheSettingsAsWritten | wp-components-php/inc/classes/class-render-controller.php:83-85 | as written: a missing key is derived from the undefined `$args` |
| RenderController.CacheKeyShared | wp-components-php/inc/classes/class-render-controller.php:84 | as written, any two components rendered with `$cache = true` share one cache key |
| RenderController.CacheSettings | wp-components-php/inc/classes/class-render-controller.php:83-85 | corrected: a missing key is derived from the component being rendered |
| RenderController.CacheKeyDistinct | wp-components-php/inc/classes/class-render-controller.php:84 | corrected, components with different digests get different keys |
| RenderController.RenderChildren | wp-components-php/inc/classes/class-render-controller.php:154-170 | an empty argument falls back to the current renderable's children; the result is `''` exactly when nothing is rendered and null otherwise |
| WpMenu.Remaining | inc/wp-components/traits/trait-wp-menu.php:109 | the working copy never grows |
| WpMenu.RemainingMembers | inc/wp-components/traits/trait-wp-menu.php:109 | after item `k`, the working copy holds exactly the later items and the earlier non-matching items |
| WpMenu.RemainingShorter | inc/wp-components/traits/trait-wp-menu.php:109-127 | the recursive call gets a strictly shorter list |
| WpMenu.ParentIds | inc/wp-components/traits/trait-wp-menu.php:112 | the parent ids are `absint` of each item's parent |
| WpMenu.SubmenuConfig | inc/wp-components/traits/trait-wp-menu.php:120-125 | a submenu has type `submenu`, the item's title, and the class defaults elsewhere |
| WpMenu.MatchIdx | inc/wp-components/traits/trait-wp-menu.php:88-97 | the matching positions are in range and match the level's parent |
| WpMenu.PendingIff | inc/wp-components/traits/trait-wp-menu.php:112-114 | the submenu test holds exactly when an item not yet attached names this one as its parent |
| WpMenu.MatchIdxNonEmpty | inc/wp-components/traits/trait-wp-menu.php:88-97 | an item whose parent is the level's id gives the level a non-empty list of matching positions |
| WpMenu.AttachOne | inc/wp-components/traits/trait-wp-menu.php:106-131 | a matched item is attached as the built item, with one more child exactly when the item is pending, and that child is its submenu: the item's title, typed `submenu`, holding the pending items attached recursively in order, or null without the item class |
| WpMenu.Level | inc/wp-components/traits/trait-wp-menu.php:86-136 | a level only appends children, and the existing children stay a prefix |
| WpMenu.LevelShape | inc/wp-components/traits/trait-wp-menu.php:88-131 | with the item class present, a level attaches exactly the items whose parent is the level's id, in order, each with its recursively built submenu exactly when pending |
| WpMenu.LevelWithoutClass | inc/wp-components/traits/trait-wp-menu.php:99-103 | without the item class a level returns at once, unchanged |
| WpMenu.BuildMenuLevel | inc/wp-components/traits/trait-wp-menu.php:86-136 | without the item class the menu is unchanged; with it, the top level attaches exactly the root items, in order, each with its recursively built submenu exactly when pending |
| WpMenu.MenuItemClass | inc/wp-components/traits/trait-wp-menu.php:99 | the item class defaults to `\WP_Components\Component\Menu_Item` |
| WpMenu.BuildMenu | inc/wp-components/traits/trait-wp-menu.php:86-136 | only children change and the old ones stay a prefix; a missing item class leaves the menu unchanged; otherwise one child is appended per root item, each the built item with its submenu tree |
| WpMenu.ParseWpMenu | inc/wp-components/traits/trait-wp-menu.php:66-76 | there is no result exactly when there is no menu; otherwise the result is the menu built from the items: unchanged without the item class, and with it one child per root item, each with its submenu tree |
| SocialLinks.SocialItem | inc/wp-components/classes/class-social-links.php:42 | an item is named `social-item` and has no children |
| SocialLinks.SocialItemConfig | inc/wp-components/classes/class-social-item.php:27-33 | an item reads its link config first and its defaults second |
| SocialLinks.LinkedCount | inc/wp-components/classes/class-social-links.php:40-41 | at most one item per service |
| SocialLinks.LinkedIdx | inc/wp-components/classes/class-social-links.php:40-41 | the linked services are listed by position, in increasing order, each once, and every enabled and configured service is among them |
| SocialLinks.LinkedItemsAt | inc/wp-components/classes/class-social-links.php:40-42 | the k-th item the loop adds is built from the config of the k-th linked service |
| SocialLinks.LinkedItemsCons | inc/wp-components/classes/class-social-links.php:40-42 | the first service adds its item in front of the items of the rest exactly when it is linked |
| SocialLinks.AddLinks | inc/wp-components/classes/class-social-links.php:40-44 | fails exactly when a linked service has a non-array config; otherwise only children change, and the new children are the old ones followed by one item per enabled and configured service, in service order, each built from its own config |
| SocialLinks.CreateLinkComponents | inc/wp-components/classes/class-social-links.php:39-46 | a non-array `services` adds nothing; otherwise the loop runs over the services |
| SocialLinks.DefaultLinksEmpty | inc/wp-components/classes/class-social-links.php:27-32 | with the default config no item is added, whatever the link configs |
| SocialLinks.UnlinkedAddNothing | inc/wp-components/classes/class-social-links.php:41 | disabled or unconfigured services add nothing |
| Autoload.Slug | autoload.php:28-34 | `_` becomes `-` and letters are lowered; length and the positions of `\` and `/` are kept |
| Autoload.Split | autoload.php:36-37 | the directories and the stem rejoin into the input, and none holds a `\` |
| Autoload.ResolveAsWritten | autoload.php:13-52 | as written: a name yields paths exactly when it contains the namespace |
| Autoload.PathOf | autoload.php:40 | corrected path: it always lies under `/inc/<dir>/<classes or traits>/` |
| Autoload.Resolve | autoload.php:13-52 | corrected: a name yields paths exactly when it contains the namespace; the class and trait paths lie under the loader's `classes` and `traits` directories |
| Autoload.LeadingBackslash | autoload.php:17 | a leading `\` does not change the paths |
| Autoload.StemShape | autoload.php:28-37 | the stem and the directories have no `_`, no `\` and no uppercase letter |
| Autoload.NormaliseTopLevel | autoload.php:20-34 | `<ns>\X` is served and normalises to the slug of `X` |
| Autoload.TopLevelPaths | autoload.php:36-49 | `<ns>\X` maps to `/inc/<dir>/classes/class-<slug>.php` and its trait twin, and the corrected loader agrees |
| Autoload.FlatPath | autoload.php:40 | with no sub-namespace both path formulas coincide |
| Autoload.BodyPath | autoload.php:24-26 | `\WP_Components\Body` maps to `class-body.php` and `trait-body.php` under `/inc/wp-components` |
| Autoload.RenderControllerPath | autoload.php:68-70 | `\WP_Render\Render_Controller` maps to `class-render-controller.php` and `trait-render-controller.php` under `/inc/wp-render` |
| Autoload.NormaliseNested | autoload.php:20-34 | `<ns>\D\X` normalises to `<slug D>\<slug X>` |
| Autoload.SplitOneDeep | autoload.php:36-37 | one sub-namespace splits into one directory and the stem |
| Autoload.NestedAsWritten | autoload.php:40-46 | as written, `<ns>\D\X` maps to `/inc/<slug D>/<dir>/classes/class-<slug X>.php` |
| Autoload.NestedResolved | autoload.php:40-46 | corrected, `<ns>\D\X` maps to `/inc/<dir>/classes/<slug D>/class-<slug X>.php` |
| Autoload.CoreEmbedAsWritten | autoload.php:40 | as written, `\WP_Components\Blocks\Core_Embed` is looked for outside `/inc/wp-components/` |
| Autoload.CoreEmbedResolved | autoload.php:40 | corrected, it maps to `inc/wp-components/classes/blocks/class-core-embed.php` |
| Autoload.ThemeResolve | inc/autoload.php:56-93 | the theme loader does nothing when the filtered namespace is empty or absent from the name |
| Autoload.ThemeTopLevel | inc/autoload.php:77-87 | `<ns>X` hands the slug of `X` and no directories to the path filter |
| Autoload.ThemeAgreesWithLoader | inc/autoload.php:69-87 | with the namespace `<ns>\`, the theme loader hands the path filter the same stem and directories as the fixed loader |

## Left out

- Rendering I/O is out of scope:
  - output buffering, `echo`, transients and template files in `Render_Controller::render`;
  - `render_css`, `render_js` and `render` on a renderable.

  A template's effect on the controller is a function parameter. `render_children` is modelled up to the null that `render` returns.
- Foreign calls are parameters: the oEmbed lookup and `DOMDocument` parsing in `Core_Embed::set_from_block`, `render_block`, `do_shortcode`, `html_entity_decode`, `parse_blocks`, `WP_Query`, `md5(serialize(...))` and `class_exists`. `get_pagination_links` is also a parameter: the pagination items come in as a list.
- The WordPress filters `the_content`, `wp_components_block_render_exceptions`, `wp_components_dynamic_block` and `wp_components_theme_components_path` are parameters or taken unhooked. The theme namespace filter's value is an argument.
- GutenbergContent: reusable blocks (`get_post` on `attrs.ref`) are taken as never resolving, so such a block falls through to the dynamic case.
- GutenbergContent.ConvertShape, GutenbergContent.ReduceShape and GutenbergContent.ParseAndConvertShape: HTML components stay apart only because reusable blocks are never resolved. A resolved one is spliced in with `array_merge`, bypassing the HTML merge, so a paragraph followed by a reusable block whose content starts with a paragraph gives two adjacent HTML components.
- GutenbergContent: `preg_match('/^\s+$/')` is modelled on ASCII whitespace.
- ContentList: `parse_from_wp_query` and `parse_from_jetpack_related` are left out. They only read post ids out of WordPress objects before calling `parse_from_post_ids`, which is modelled.
- WpMenu:
  - the `WP_Term` test of `parse_wp_menu` and `wp_get_nav_menu_items` are an `Option` argument;
  - `set_menu_item` is a parameter;
  - the `(array) $menu` cast of the returned submenu is not modelled, and a submenu is kept as a component.
- Autoload: `file_exists` and `require_once` are left out. The loaders return the paths they would probe.
- Autoload, CamelCase and Legacy: `strtolower`, `ucwords` and `strtoupper` are ASCII-only.
- PHP arrays with integer keys, the `(object)` cast in `to_array`, and the key order of `array_filter` on children are left out. Children are lists of slots.
- `callback()`, which forks the chain by reference, is left out.
- `has_error`'s debug log is left out.
- Pagination: `posts_per_page` and `paged` are integers as given. Any conversion `WP_Query::get` does first is left out.
- RenderController.WithKey and RenderController.WithTtl carry no contract of their own. `WithKeyGet`, `WithTtlGet` and `NormalizeCacheGet` state what they do.
- Component.HasError: the message only goes to `error_log` behind `WP_DEBUG`, so the model keeps only the validity flag.
- CoreEmbed.GetScripts: its contract restates its body, so `GetScriptsDrains` carries the property.
- Legacy.CamelInto: assumes PHP 8, where writing a key into a non-empty scalar holder (an int, a float, `true` or a non-empty string, reached by `['a_b' => 1, 'aB' => ['x' => 1]]`) throws an `Error` and is a `Failure`. PHP 7 only warns there and carries on, leaving the holder as it was or writing a string offset; that behaviour is not modelled.
- SocialLinks.AddLinks: `merge_config` on a link config that is not an array is a PHP TypeError, modelled as a `Failure` of the whole loop.
- Object identity and aliasing are left out: a component is a value, not a PHP object handle. A child changed after `append_child`, or one object held both in the children and in a group, changes in one place only in the model, where in PHP both places see the change.
- Strings are sequences of characters. Only the control-character strip of the Gutenberg reducer is also modelled on UTF-8 bytes, as `GutenbergContent.StripControlBytes`, because there the byte reading changes the result.

## Findings

| source | as written | input that shows it | evidently intended | confidence | as-written member | corrected member |
|---|---|---|---|---|---|---|
| inc/wp-components/classes/class-component.php:293 | `prepend_to_group` tests `in_array($group, $this->component_groups, true)`, which compares the name with the group arrays, so the test is never true | `prepend_to_group('default', $c)` on a new component | test the group keys, as `append_to_group` does, and put the new slots first | high, not executed | Component.PrependToGroupIgnored | Component.PrependToGroup |
| inc/classes/class-component.php:146 | `prepend_child` unshifts the undefined `$chilld`, so null is prepended | `prepend_child($c)` with any component `$c` | prepend `$child` | high, not executed | Legacy.PrependChildLosesChild | Legacy.PrependChild |
| wp-components-php/inc/classes/class-render-controller.php:84 | the cache key is derived from the undefined `$args` (null), so every render without a key shares one cache entry | `render($a, false, true)` and `render($b, false, true)` for two different components | derive the key from the component being rendered | medium, not executed | RenderController.CacheKeyShared | RenderController.CacheKeyDistinct |
| inc/wp-components/classes/class-gutenberg-content.php:46-53 | without `parse_blocks`, the method returns `append_child(...)`, a component, from a method declared `: array`, which is a TypeError | any post content on a site where `parse_blocks` is not defined | return a list holding one HTML component with the filtered content | high, not executed | GutenbergContent.ClassicFallback | GutenbergContent.ParseAndConvert |
| autoload.php:40 | the sub-namespace directories go between `/inc/` and `/wp-components/` | `\WP_Components\Blocks\Core_Embed` is looked for at `/inc/blocks/wp-components/classes/class-core-embed.php`, but the file is `inc/wp-components/classes/blocks/class-core-embed.php` | put the directories under the kind directory | medium, not executed | Autoload.CoreEmbedAsWritten | Autoload.CoreEmbedResolved |
| inc/wp-components/classes/class-gutenberg-content.php:132 | the pattern `/[\r\n\t\f\v]/` has no `u` modifier, so PCRE reads the markup byte by byte and `\v` also removes the byte 0x85 | rendered markup holding `Å` (bytes C3 85) or Cyrillic `х` (bytes D1 85) | read the markup as characters, as the `u` modifier does: remove tab and the vertical whitespace of `\v` (LF, VT, FF, CR, U+0085, U+2028 and U+2029), leaving multi-byte letters whole | medium, not executed | GutenbergContent.StripControlBytesSplitsLetters | GutenbergContent.StripControls |
