# Tasko pages and components, modelled in Dafny

Tasko is a to-do application. It works on one replica record, the *user*.
The user holds:

- live tasks and categories;
- the ids of favourite categories;
- tombstones, which are the ids of deleted tasks and categories;
- the settings that drive the views.

Every page and dialog reads that record and writes a new version of it.

This project models the logic of those pages and dialogs, one Dafny module per source file:

- **`TasksList`**: the task list's derived view. It filters by category and search text. It then sorts by the chosen option, with pinned tasks first and, when the user asks for it, done tasks last. The module also covers the category chips with their counts, and deleting, marking done and drag-to-reorder.
- **`Categories`**: deleting a category everywhere it is referenced, adding one, and toggling a favourite.
- **`Transfer`**: export selection, JSON import with its validation, the category upsert, the merge of tasks by id, and the link, QR-code and drop guards.
- **`Purge`**: permanent removal of tasks, with tombstones.
- **`TaskMenu`**: mark done, pin, duplicate, move mode and the text read aloud.
- **`EditTask`** and **`AddTask`**: the task form dialogs.
- **`Home`**: statistics, the greeting for the hour and the progress card.
- **`Greeting`**: the random greeting that avoids the last eight used.
- **`EmojiPicker`**: unified emoji names, the most used emojis, and the emoji chosen from a language-model answer.
- **`ReadAloud`**: the voice list, region flags and the mute button.
- **`SettingsDialog`**: tab slugs and hash routing. The router is a class whose fields change.
- **`ShareDialog`**: the share payload and link, and the calendar (ICS) text.
- **`SyncPage`**: the sync page around the peer-to-peer engine.

Shared modules:

- **`UserTypes`**: the record itself.
- **`Wrappers`**: `Option` and `Result`.
- **`Seqs`**: `filter`, `includes` and de-duplication.
- **`Sorting`**: a stable sort, written functionally and in place.
- **`Text`**: JavaScript's `trim`, case mapping, `split` and `join`, and first-occurrence `replace`.
- **`Numerals`**: `toString(radix)`.

Conventions:

- Operations that replace state are functions from the old record to the new one.
- Loops become methods with invariants.
- Browser services, clocks and randomness are parameters.
- Localised strings are modelled verbatim.

## Model

| member | source | states |
|---|---|---|
| Categories.DropCategory | src/pages/Categories.tsx:102 | a task's category list loses exactly the categories with the id and keeps the others in their order; a missing list stays missing |
| Categories.DeleteCategory | src/pages/Categories.tsx:93-104 | a delete with no id, or the empty id, changes nothing; the categories and favourites left keep their relative order |
| Categories.DeleteCategoryEffect | src/pages/Categories.tsx:98-118 | after a delete no category, favourite or task refers to the id; the categories, favourites and each task's category list that remain keep their order; references to other ids and every other task field are kept; the id is tombstoned, the old tombstones stay as a prefix and grow by one only when the id was absent; the rest of the user is untouched |
| Categories.DeleteCategoryNoDup | src/pages/Categories.tsx:98-117 | a delete keeps the category tombstones and the category ids free of duplicates |
| Categories.NeedsDeleteConfirmationMeaning | src/pages/Categories.tsx:295-304 | the delete goes through the confirmation dialog exactly when some task carries the category or it is a favourite |
| Categories.AddCategory | src/pages/Categories.tsx:147-182 | an empty name is refused with the required-name error and an over-long name silently; otherwise exactly one category is appended at the end and nothing else changes |
| Categories.AddCategoryNew | src/pages/Categories.tsx:152-158 | the new category carries the fresh id, the name, the colour and the save time; its emoji is missing exactly when none or the empty emoji was picked; a fresh id keeps category ids unique |
| Categories.ToggleFavorite | src/pages/Categories.tsx:210-220 | toggling a favourite changes only the favourites and the categories |
| Categories.ToggleFavoriteEffect | src/pages/Categories.tsx:210-220 | the toggle flips the membership of the category's id and of no other id; every category with that id gets `lastSave` set to now, and no other field or category changes |
| Categories.ToggleFavoriteTwice | src/pages/Categories.tsx:212-215 | toggling twice restores the favourites' membership, and the favourites list itself when the id was not a favourite |
| EditTask.NameError | src/components/tasks/EditTask.tsx:39-42 | the name error is on exactly when there is an edited copy whose name is longer than the limit |
| EditTask.DescriptionError | src/components/tasks/EditTask.tsx:43-47 | the description error is on exactly when the edited copy has a description longer than the limit |
| UserTypes.LengthError | src/pages/Categories.tsx:127-145 | the error under a length-limited input is on exactly while the text is longer than the limit, and is then that input's message |
| EditTask.OrUndefined | src/components/tasks/EditTask.tsx:83-84 | an empty or missing text is saved as missing, and any other text as it is |
| EditTask.Save | src/components/tasks/EditTask.tsx:74-95 | without an edited copy or with a length error the tasks stay as they are; a save never changes the number of tasks |
| EditTask.SaveEffect | src/components/tasks/EditTask.tsx:77-91 | a save keeps the ids and changes only the task with the edited id; that task keeps its id, flags, date, position and sharer, takes the edited name, colour, deadline and categories, takes the edited emoji and description when they are non-empty and loses them when they are empty or missing, and gets `lastSave` set to now |
| EditTask.Cancel | src/components/tasks/EditTask.tsx:105-109 | cancelling puts back the original task as the edited copy and its categories as the picked ones |
| EditTask.SaveDisabled | src/components/tasks/EditTask.tsx:278-284 | the button is disabled exactly when the edited copy equals the original, or the edited name is empty or over its limit, or the edited description is over its limit |
| EditTask.EnabledSaveSaves | src/components/tasks/EditTask.tsx:74-284 | when the button is enabled the edited name is non-empty, the copy differs from the original, and the save replaces every task with the edited id by its saved version |
| AddTask.FormErrors | src/pages/AddTask.tsx:47-59 | the name error is on exactly while the name is over its limit and the description error exactly while the description is; each is then its message naming the limit in decimal |
| AddTask.HandleAddTask | src/pages/AddTask.tsx:88-120 | the add is refused exactly when the name is empty or a text is over its limit, reporting the missing name exactly when the name is empty; otherwise the new task is appended to the user's tasks and nothing else changes |
| AddTask.AddedTask | src/pages/AddTask.tsx:103-119 | the new task goes last after the unchanged list; it has the fresh id, is neither done nor pinned nor saved, has the form's name, colour, date and deadline, the picked categories or `[]`, and a description and an emoji only when they are non-empty; a fresh id keeps ids unique |
| EmojiPicker.HexSegments | src/components/EmojiPicker.tsx:227-232 | there is one hexadecimal segment per code point |
| EmojiPicker.EmojiToUnified | src/components/EmojiPicker.tsx:227-232 | upper-casing each segment and then lower-casing the joined text gives the lower-case hexadecimal code points joined by `-` |
| EmojiPicker.LowerJoin | src/components/EmojiPicker.tsx:229-231 | lower-casing a `-`-joined text is the same as joining the lower-cased parts |
| EmojiPicker.UnifiedSegments | src/components/EmojiPicker.tsx:227-232 | splitting the unified name at `-` gives back one segment per code point, each all hexadecimal digits and reading back as its code point |
| EmojiPicker.UnifiedInjective | src/components/EmojiPicker.tsx:227-232 | two non-empty emojis with the same unified name are the same emoji |
| EmojiPicker.ByCountDescTotal | src/components/EmojiPicker.tsx:79 | the comparator `b.count - a.count` is a total preorder, so the sort is well-defined |
| EmojiPicker.TopSix | src/components/EmojiPicker.tsx:79-80 | at most six entries are taken |
| EmojiPicker.TopSixFacts | src/components/EmojiPicker.tsx:79-80 | the top entries are stored entries, six of them or all when fewer are stored, in non-increasing count, and none left out has a higher count than one taken |
| EmojiPicker.Unifieds | src/components/EmojiPicker.tsx:81 | one unified name per entry, in the same order |
| EmojiPicker.FrequentlyUsedEmojis | src/components/EmojiPicker.tsx:70-84 | nothing stored gives no suggestions; otherwise the in-place sort followed by the first six gives the unified names of the top six entries |
| EmojiPicker.Substitute | src/components/EmojiPicker.tsx:164-180 | a key of the emoji map is replaced by its value, and anything else is left as it is |
| EmojiPicker.EmojiFromAnswer | src/components/EmojiPicker.tsx:143-198 | a failed prompt, an answer with no emoji, or an emoji the pattern refuses leaves no current emoji |
| EmojiPicker.EmojiFromAnswerFirst | src/components/EmojiPicker.tsx:150-192 | with some extracted emoji and an accepting pattern the current emoji is the unified name of the first extracted emoji, substituted and without `:`; the de-duplication keeps the first one first |
| EmojiPicker.AskButtonDisabled | src/components/EmojiPicker.tsx:304-310 | the button is enabled exactly when the name has at least three characters and at most the maximum for a task or a category |
| EmojiPicker.EmojiClick | src/components/EmojiPicker.tsx:104-107 | clicking an emoji toggles the picker and makes that emoji current |
| EmojiPicker.RemoveEmoji | src/components/EmojiPicker.tsx:109-112 | removing toggles the picker and leaves no current emoji |
| EmojiPicker.EmojiPropChanged | src/components/EmojiPicker.tsx:92-96 | the parent setting the emoji to the empty string clears the current emoji; any other value changes nothing |
| EmojiPicker.ClickThenRemove | src/components/EmojiPicker.tsx:104-112 | clicking then removing leaves the picker open or closed as before and with no current emoji |
| Seqs.Dedup | src/components/EmojiPicker.tsx:150 | `[...new Set(xs)]`: no repeats, the same elements, and the first element stays first |
| Greeting.HoursLeftGreeting | src/utils/getRandomGreeting.ts:4-35 | with more than four hours left the greeting says how many remain and to use them wisely; with four or fewer it says only so many remain, the number written in decimal |
| Greeting.GreetingsText | src/utils/getRandomGreeting.ts:6-36 | there are 23 greetings and the last one is the hours-left greeting |
| Greeting.DrawIndex | src/utils/getRandomGreeting.ts:47 | a draw in [0, 1) gives an index inside the list |
| Greeting.RecordEffect | src/utils/getRandomGreeting.ts:50-57 | recording a fresh index keeps the recent set without repeats and within eight entries, puts the index last, and when the set was full drops exactly its oldest entry |
| Greeting.FreshIndexExists | src/utils/getRandomGreeting.ts:46-48 | while fewer indices are recent than there are greetings, some index in range is not recent, so the retry loop has something to find |
| Greeting.RecentGreetings.constructor | src/utils/getRandomGreeting.ts:1 | the module starts with no recent greetings |
| Greeting.RecentGreetings.GetUniqueGreeting | src/utils/getRandomGreeting.ts:44-60 | the chosen index is the first draw whose index was not recent; its greeting is returned, and the recent set becomes that set with the index recorded, still without repeats and within the bound |
| Home.CompletedCount | src/pages/Home.tsx:44 | the completed count never exceeds the number of tasks |
| Home.CompletedPercentage | src/pages/Home.tsx:45 | the percentage is 0 without tasks; otherwise times the number of tasks it is 100 times the completed count, and it lies between 0 and 100 |
| Home.PercentageThreshold | src/pages/Home.tsx:45-95 | with tasks, the percentage reaches (or equals) a whole threshold exactly when 100 times the completed count reaches (or equals) the threshold times the number of tasks |
| Home.RatioThreshold | src/pages/Home.tsx:45 | for any ratio p with p·n = 100·c and n > 0, p reaches (or equals) a whole k exactly when 100·c reaches (or equals) k·n |
| Home.DueToday | src/pages/Home.tsx:47-55 | the tasks due today are exactly the tasks not done whose deadline falls on today's day |
| Home.TimeGreeting | src/pages/Home.tsx:66-76 | "Buenos días" from 5 to before 12, "Buenas tardes" strictly between 12 and 18, and "Buenas noches" otherwise, noon included |
| Home.CompletionText | src/pages/Home.tsx:79-95 | the message is one of the six completion messages, and the no-progress one when there are no tasks |
| Home.CompletionTextByCounts | src/pages/Home.tsx:79-95 | the message is the no-progress one exactly when nothing is done, the congratulation exactly when there are tasks and all are done, and otherwise the one for the highest threshold (three quarters, one half, one quarter) that the counts meet |
| Home.UpdateShowProgressBar | src/pages/Home.tsx:97-131 | only the progress-bar setting changes; turning it off hides the card, and turning it on shows the card exactly when there are tasks |
| Sorting.Sort | src/components/tasks/TasksList.tsx:194-219 | the sorted list has as many elements as the input |
| Sorting.SortPermutation | src/components/tasks/TasksList.tsx:194-219 | sorting rearranges the input: the same elements, each as many times |
| Sorting.SortSorted | src/components/tasks/TasksList.tsx:194-219 | with a consistent comparator the result is ordered by it |
| Sorting.InsertRFilter | src/components/tasks/TasksList.tsx:194-219 | insertion lands after every element of a class whose members all sort at or before it, and among the other classes it only adds itself |
| Sorting.SortStable | src/components/tasks/TasksList.tsx:194-219 | the sort is stable: the elements equivalent under the comparator to any given one come out in the order they went in |
| Sorting.InsertInPlace | src/components/EmojiPicker.tsx:79 | one step of the in-place sort inserts the element into the sorted prefix before it and leaves the rest of the array alone |
| Sorting.ShiftPast | src/components/EmojiPicker.tsx:79 | the shifting loop moves every element of the sorted prefix that is not `leq` the inserted one, from the right, one place on; it stops after the first one that is; the rest of the array is unchanged |
| Sorting.SortInPlace | src/components/EmojiPicker.tsx:79 | the in-place sort leaves the array holding the sort of its old contents |
| Seqs.Filter | src/components/tasks/TasksList.tsx:177-191 | a filter keeps exactly the elements that pass, and no more of them than the input has |
| Seqs.FilterOrdered | src/pages/Categories.tsx:98-102 | a filter keeps the relative order of the elements it keeps: its result is a subsequence of the input |
| Seqs.FirstIndex | src/pages/Transfer.tsx:196-198 | `findIndex` on a key: the index of the first element with the key, and -1 exactly when none has it |
| Seqs.FilterPartition | src/pages/Purge.tsx:43-44 | a filter and its complement split the input between them |
| Seqs.NoDupAppend | src/pages/Purge.tsx:77-80 | appending elements that are new and distinct to a list without repeats gives a list without repeats |
| Text.Trim | src/pages/Sync.tsx:73 | the trimmed text is the text with its leading and trailing white space removed, and neither starts nor ends with white space |
| Text.TrimIdempotent | src/pages/Sync.tsx:73 | trimming twice is trimming once |
| Text.IndexOf | src/components/tasks/TaskMenu.tsx:65 | the index is that of the first occurrence of the character, and -1 exactly when it does not occur |
| Text.RemoveFirst | src/components/tasks/TaskMenu.tsx:65 | without the character the text is unchanged; otherwise exactly its first occurrence is cut out, keeping the text before and after it |
| Text.FindFrom | src/components/tasks/ShareDialog.tsx:121 | the offset found is an occurrence, and there is none before it from the starting point |
| Text.ReplaceFirst | src/components/tasks/ShareDialog.tsx:121 | without an occurrence the text is unchanged; otherwise the first occurrence is cut out |
| Text.Split | src/components/settings/tabs/ReadAloudTab.tsx:206 | a split has at least one part and no part contains the separator |
| Text.JoinSplit | src/components/settings/tabs/ReadAloudTab.tsx:206 | joining the parts of a split gives the text back |
| Text.SplitJoin | src/components/EmojiPicker.tsx:227-232 | splitting the join of parts free of the separator gives the parts back |
| Text.JoinEnds | src/components/tasks/ShareDialog.tsx:136 | a join starts with its first part and ends with its last |
| Numerals.ToString | src/components/settings/tabs/ReadAloudTab.tsx:214 | the digits are non-empty, all of the radix, and without a leading zero |
| Numerals.ParseToString | src/components/settings/tabs/ReadAloudTab.tsx:214 | reading the printed digits back gives the number |
| Numerals.ToStringInjective | src/components/settings/tabs/ReadAloudTab.tsx:214 | different numbers print differently |
| Numerals.ToStringAlphabet | src/components/EmojiPicker.tsx:229-231 | printed digits contain neither `-` nor upper-case letters |
| UserTypes.FindTaskIndex | src/pages/Transfer.tsx:217 | the index is that of the first task with the id, and -1 exactly when there is none |
| UserTypes.FindCategoryIndex | src/pages/Transfer.tsx:196-198 | the index is that of the first category with the id, and -1 exactly when there is none |
| UserTypes.FindTask | src/components/tasks/TaskMenu.tsx:61 | a task is found exactly when one has the id, and it is the first task with that id |
| Text.RemoveAll | src/components/tasks/ShareDialog.tsx:109 | the characters to drop are all gone, and the text only gets shorter |
| Text.RemoveAllAppend | src/components/tasks/ShareDialog.tsx:109 | removal works piecewise on a concatenation |
| Text.RemoveAllNone | src/components/tasks/ShareDialog.tsx:109 | a text without characters to drop is unchanged |
| Text.RemoveWhitespaceClean | src/components/settings/SettingsDialog.tsx:87 | no white space is left after the removal |
| Text.RemoveWhitespaceAppend | src/components/settings/SettingsDialog.tsx:87 | white space removal works piecewise on a concatenation |
| Text.RemoveWhitespaceNone | src/components/settings/SettingsDialog.tsx:87 | a text without white space is unchanged |
| Text.LowerIsLower | src/components/tasks/TasksList.tsx:186-189 | lower-casing keeps the length, leaves no upper-case letter and is idempotent |
| Purge.DoneTasks | src/pages/Purge.tsx:43 | the done list holds exactly the user's tasks that are done |
| Purge.NotDoneTasks | src/pages/Purge.tsx:44 | the not-done list holds exactly the user's tasks that are not done |
| Purge.DonePartition | src/pages/Purge.tsx:43-44 | the done and not-done lists split the tasks: together they have every task, as many times as it occurs |
| Purge.PurgeTasks | src/pages/Purge.tsx:66-82 | a purge empties the selection and changes only the user's tasks and tombstones |
| Purge.PurgeEffect | src/pages/Purge.tsx:66-82 | a purge leaves exactly the tasks that were not purged; the old tombstones stay as a prefix; a tombstone afterwards is an old one or the id of a purged task, and every purged id has one |
| Purge.PurgeNoDup | src/pages/Purge.tsx:77-80 | tombstones without repeats stay without repeats when the purged tasks have distinct ids |
| Purge.PurgeSelected | src/pages/Purge.tsx:84-92 | purging the selection leaves exactly the tasks whose ids were not selected, and clears the selection |
| Purge.PurgeDone | src/pages/Purge.tsx:94-97 | purging the done tasks leaves exactly the tasks not done, and clears the selection |
| Purge.PurgeDoneLeavesNotDone | src/pages/Purge.tsx:94-97 | after purging the done tasks the list is the not-done list itself, in the same order |
| Purge.PurgeAll | src/pages/Purge.tsx:180-186 | purging everything (after confirmation) leaves no tasks and a tombstone for every former task |
| ReadAloud.GetAvailableVoices | src/components/settings/tabs/ReadAloudTab.tsx:70-81 | without speech synthesis there are no voices; otherwise the copy loop gives the browser's voices in order, or none when it returns nothing |
| ReadAloud.VoiceLeq | src/components/settings/tabs/ReadAloudTab.tsx:138-152 | a voice of the user's language comes strictly before one that is not, and between two voices alike in that respect the language order decides |
| ReadAloud.VoiceLeqTotal | src/components/settings/tabs/ReadAloudTab.tsx:138-152 | the voice comparator is a total preorder whenever the language order is one |
| ReadAloud.FilteredVoices | src/components/settings/tabs/ReadAloudTab.tsx:124-152 | every voice listed is an available one |
| ReadAloud.FilteredVoicesFacts | src/components/settings/tabs/ReadAloudTab.tsx:124-152 | the list holds only available voices, no two with the same five properties, one for every available key, and every voice of the user's language before every other voice |
| ReadAloud.Region | src/components/settings/tabs/ReadAloudTab.tsx:206 | the region taken from a language tag has at most two characters |
| ReadAloud.IndicatorPoint | src/components/settings/tabs/ReadAloudTab.tsx:212 | a region letter maps to its code minus 0x41 plus 0x1F1E6 |
| ReadAloud.FlagUnicodes | src/components/settings/tabs/ReadAloudTab.tsx:204-215 | there is a flag exactly when the region has two characters, and it is the two indicators in hexadecimal joined by `-` |
| ReadAloud.FlagUnicodesInverse | src/components/settings/tabs/ReadAloudTab.tsx:212-214 | a flag splits at `-` into two hexadecimal parts that read back as the indicators of the two region letters |
| ReadAloud.RegionExamples | src/components/settings/tabs/ReadAloudTab.tsx:205-210 | the region of `pl-PL` is `PL`, and a tag such as `x` has no flag |
| ReadAloud.IndicatorOfA | src/components/settings/tabs/ReadAloudTab.tsx:212 | `A` maps to U+1F1E6, written `1f1e6` |
| ReadAloud.LanguageRegion | src/components/settings/tabs/ReadAloudTab.tsx:154-171 | an empty tag gives the empty string, a tag without `-` gives itself, and a tag with a region gives the region's display name, or the tag itself when the name cannot be found |
| ReadAloud.VoiceChange | src/components/settings/tabs/ReadAloudTab.tsx:110-122 | an empty choice changes nothing; otherwise only the voice setting changes, to the chosen voice |
| ReadAloud.VoiceVolumeCommit | src/components/settings/tabs/ReadAloudTab.tsx:174-186 | only the volume setting changes, to the slider's value |
| ReadAloud.MuteClick | src/components/settings/tabs/ReadAloudTab.tsx:188-202 | a sounding volume goes to zero; a zero volume goes back to the remembered one, or to the default when that is zero too; the old volume is remembered |
| ReadAloud.MuteClickUser | src/components/settings/tabs/ReadAloudTab.tsx:192-200 | the stored volume becomes the mute click's new volume and nothing else in the user changes |
| ReadAloud.MuteUnmute | src/components/settings/tabs/ReadAloudTab.tsx:188-202 | muting and unmuting gives back the volume that was sounding, and a second pair of clicks repeats the first |
| ReadAloud.UnmuteSounds | src/components/settings/tabs/ReadAloudTab.tsx:193-194 | unmuting gives a sounding volume whenever the default sounds |
| Seqs.DedupBy | src/components/settings/tabs/ReadAloudTab.tsx:125-137 | the kept elements have distinct keys, come from the input, and cover every key of the input |
| SettingsDialog.CreateTabSlug | src/components/settings/SettingsDialog.tsx:87 | a slug is never longer than its label |
| SettingsDialog.SlugFacts | src/components/settings/SettingsDialog.tsx:87 | a slug has no white space, and a label without white space is its own slug |
| SettingsDialog.SlugOfLetters | src/components/settings/SettingsDialog.tsx:87 | a label of letters only is its own slug |
| SettingsDialog.SpaceDropped | src/components/settings/SettingsDialog.tsx:87 | a space after a word of letters is dropped and the rest is slugged on its own |
| SettingsDialog.ReadAloudSlug | src/components/settings/SettingsDialog.tsx:67-87 | "Leer en Voz Alta" becomes "LeerenVozAlta" |
| SettingsDialog.AboutSlug | src/components/settings/SettingsDialog.tsx:79-87 | "Acerca de" becomes "Acercade" |
| SettingsDialog.Slugs | src/components/settings/SettingsDialog.tsx:87 | one slug per label, in order |
| SettingsDialog.TabSlugs | src/components/settings/SettingsDialog.tsx:43-87 | the six tabs' slugs are Apariencia, General, Emoji, LeerenVozAlta, Atajos and Acercade |
| SettingsDialog.FirstTabSlugs | src/components/settings/SettingsDialog.tsx:43-87 | the first three labels are their own slugs |
| SettingsDialog.LastTabSlugs | src/components/settings/SettingsDialog.tsx:43-87 | the last three labels have the slugs LeerenVozAlta, Atajos and Acercade |
| SettingsDialog.TabSlugValuesGood | src/components/settings/SettingsDialog.tsx:43-84 | the six slugs are non-empty, made of letters and pairwise different |
| SettingsDialog.TabSlugsGood | src/components/settings/SettingsDialog.tsx:43-87 | the tabs' own slugs can be told apart by the hash routing |
| SettingsDialog.FindTab | src/components/settings/SettingsDialog.tsx:157 | the index found is that of the first slug equal to the word, and -1 exactly when no slug is |
| SettingsDialog.LeadingWord | src/components/settings/SettingsDialog.tsx:153 | the captured word is the longest prefix of word characters |
| SettingsDialog.TabHash | src/components/settings/SettingsDialog.tsx:89-101 | a tab's hash is `#settings/` followed by its slug |
| SettingsDialog.ResolveHash | src/components/settings/SettingsDialog.tsx:139-171 | a hash closes the dialog exactly when it is not a settings hash; `#settings` and `#settings/` select the first tab and rewrite the hash; a selection without a rewrite is of an existing tab |
| SettingsDialog.ResolveHashWord | src/components/settings/SettingsDialog.tsx:153-170 | for `#settings/` followed by more: no word character after `/` does nothing; a known word selects the first tab with that slug, with no rewrite and no warning; an unknown word selects the first tab, rewrites the hash and warns naming the word |
| SettingsDialog.TabHashRoundTrip | src/components/settings/SettingsDialog.tsx:89-171 | with good slugs, the hash written for a tab selects exactly that tab again, with no rewrite and no warning |
| SettingsDialog.WholeWord | src/components/settings/SettingsDialog.tsx:153 | a string of letters is captured whole as the word |
| SettingsDialog.SettingsRouter.constructor | src/components/settings/SettingsDialog.tsx:113 | the dialog starts closed on the first tab with no warnings |
| SettingsDialog.SettingsRouter.HandleHashChange | src/components/settings/SettingsDialog.tsx:139-171 | the state follows the outcome for the old hash: a close closes and changes nothing else, an ignore changes nothing, and a selection sets the tab, rewrites the hash only when asked and adds the warning when there is one |
| SettingsDialog.SettingsRouter.HandleHashOpen | src/components/settings/SettingsDialog.tsx:173-177 | a hash starting with `#settings` opens the dialog, and otherwise it stays as it was |
| SettingsDialog.SettingsRouter.TabChange | src/components/settings/SettingsDialog.tsx:129-136 | choosing a tab selects it and writes its hash |
| SettingsDialog.SettingsRouter.Opened | src/components/settings/SettingsDialog.tsx:191-198 | opening with a settings hash keeps it, and opening without one writes the first tab's hash |
| SettingsDialog.SettingsRouter.DialogClose | src/components/settings/SettingsDialog.tsx:121-127 | closing closes the dialog and drops the hash |
| SettingsDialog.TabChangeThenHashChange | src/components/settings/SettingsDialog.tsx:129-189 | a tab change followed by the hash change it causes keeps the chosen tab and its hash, adds no warning and does not close the dialog |
| SettingsDialog.OpenWithoutHash | src/components/settings/SettingsDialog.tsx:178-198 | opening without a settings hash, followed by the hash change it causes, leaves the dialog open on the first tab with its hash and no warning |
| ShareDialog.ShareTabs | src/components/tasks/ShareDialog.tsx:49-53 | the tabs are the link and the QR code, followed by the calendar only on Apple devices |
| ShareDialog.TaskToShare | src/components/tasks/ShareDialog.tsx:62-67 | the payload carries the categories exactly when categories are enabled |
| ShareDialog.Received | src/components/tasks/ShareDialog.tsx:57-67 | a received task takes the id and sender the receiving side gives it, and the payload's name |
| ShareDialog.SharePayloadRoundTrip | src/components/tasks/ShareDialog.tsx:62-67 | only the id, the sender and, without categories, the categories are left out of the payload: giving them back restores the task |
| ShareDialog.ShareUserName | src/components/tasks/ShareDialog.tsx:79-94 | a missing or empty name is shared as "Usuario", any other as it is |
| ShareDialog.ShareableLink | src/components/tasks/ShareDialog.tsx:55-76 | no task gives the empty link; otherwise the link starts with the page address and `share?task=` and ends with `&userName=` and the encoded name |
| ShareDialog.ShareableLinkQuery | src/components/tasks/ShareDialog.tsx:55-76 | the link is the page address followed by `share?` and exactly two `&`-separated parameters, the compressed task and the encoded name |
| ShareDialog.FormatIcsDate | src/components/tasks/ShareDialog.tsx:109 | the stamp ends in `Z`, and before it there is no `-`, no `:` and no `.` |
| ShareDialog.SplitFirstIsPrefix | src/components/tasks/ShareDialog.tsx:109 | the part before the first `.` is a prefix of the text |
| ShareDialog.FormatIcsDateOfIso | src/components/tasks/ShareDialog.tsx:109 | on an ISO time `YYYY-MM-DDTHH:mm:ss.sssZ` the stamp is `YYYYMMDDTHHmmssZ`: separators and milliseconds are gone |
| ShareDialog.StripIso | src/components/tasks/ShareDialog.tsx:109 | removing `-` and `:` from an ISO time leaves its fields, `T`, `.` and `Z` in order |
| ShareDialog.PlainKept | src/components/tasks/ShareDialog.tsx:109 | a field without separators is kept as it is in front of the rest |
| ShareDialog.DroppedSeparator | src/components/tasks/ShareDialog.tsx:109 | a separator in front of the rest is removed |
| ShareDialog.SplitFirst | src/components/tasks/ShareDialog.tsx:109 | splitting at the first `.` gives the part before it first |
| ShareDialog.MatchAt | src/components/tasks/ShareDialog.tsx:119 | a URL match at an offset ends after its scheme and inside the text |
| ShareDialog.RunEnd | src/components/tasks/ShareDialog.tsx:119 | the run of non-white-space characters ends at the first white space or at the end of the text |
| ShareDialog.FirstMatchFrom | src/components/tasks/ShareDialog.tsx:119 | the match found is a match, and no offset before it from the starting point starts one |
| ShareDialog.UrlMatch | src/components/tasks/ShareDialog.tsx:119 | a match is a non-empty range of the description |
| ShareDialog.UrlMatchFacts | src/components/tasks/ShareDialog.tsx:119 | there is a match exactly when some offset of the description starts a URL, and then none starts before it |
| ShareDialog.EventUrl | src/components/tasks/ShareDialog.tsx:120 | without a match the URL is empty; otherwise it is the matched text, which is not empty |
| ShareDialog.EventDescription | src/components/tasks/ShareDialog.tsx:121 | the description written is never longer than the task's, and neither starts nor ends with white space |
| ShareDialog.EventDescriptionCut | src/components/tasks/ShareDialog.tsx:121 | the description written is the description with the matched URL cut out at its own offsets and the rest trimmed, or just trimmed without a URL |
| ShareDialog.NoUrlKept | src/components/tasks/ShareDialog.tsx:121 | without a URL, replacing the empty text changes nothing |
| ShareDialog.UrlCut | src/components/tasks/ShareDialog.tsx:121 | replacing the URL's text cuts out exactly the matched offsets, because no earlier occurrence of the text exists |
| ShareDialog.FirstOccurrence | src/components/tasks/ShareDialog.tsx:121 | the search finds the first offset where the text occurs |
| ShareDialog.EarlierOccurrenceMatches | src/components/tasks/ShareDialog.tsx:119-121 | an earlier occurrence of a matched URL's text would itself be a match |
| ShareDialog.IcsHead | src/components/tasks/ShareDialog.tsx:123-130 | the seven head lines are never empty |
| ShareDialog.UrlLine | src/components/tasks/ShareDialog.tsx:131 | the `URL:` line is non-empty exactly when there is a URL |
| ShareDialog.IcsLinesContent | src/components/tasks/ShareDialog.tsx:123-135 | the filter drops only an empty `URL:` line: the head, then a `URL:` line with the matched URL exactly when the description holds one, then the closing lines |
| ShareDialog.IcsLinesShape | src/components/tasks/ShareDialog.tsx:123-135 | the calendar has nine lines, ten with a URL, starts with `BEGIN:VCALENDAR`, ends with `END:VCALENDAR`, and starts and ends the event at the same stamp |
| ShareDialog.IcsContent | src/components/tasks/ShareDialog.tsx:111-136 | there is a calendar text exactly when there is a task |
| ShareDialog.IcsContentBounds | src/components/tasks/ShareDialog.tsx:123-136 | the file opens and closes the calendar |
| ShareDialog.EventStamp | src/components/tasks/ShareDialog.tsx:114-116 | the event's stamp, from the deadline or from now, ends in `Z` |
| SyncPage.OtherDataSourceLabel | src/pages/Sync.tsx:82-94 | there is no label exactly when there is no source or the source is no-sync |
| SyncPage.LabelPerspectives | src/pages/Sync.tsx:82-94 | this device's data is "Este Dispositivo" on the host and "Dispositivo Anfitrión" on the scanner; the other device's is "Otro Dispositivo" on the host and "Este Dispositivo" on the scanner; no-sync and no source give no label in any mode |
| SyncPage.SuccessDataMessage | src/pages/Sync.tsx:321-337 | the success screen has a line about the other data exactly when there is a source |
| SyncPage.SuccessDataMessageCases | src/pages/Sync.tsx:330-335 | the line says the data was not synchronised exactly for no-sync, and otherwise names the page's label of the source |
| SyncPage.StatusTitle | src/pages/Sync.tsx:362-368 | the alert title is "Error" for an error, "Advertencia" for a warning and "Estado" otherwise |
| SyncPage.StatusText | src/pages/Sync.tsx:369 | the status text is never empty: the message, or "Inactivo" without one |
| SyncPage.HandleScan | src/pages/Sync.tsx:69-75 | a missing or empty scan is ignored; otherwise the scanner closes, the page switches to scanning and exactly one connection is requested |
| SyncPage.HandleScanPeerId | src/pages/Sync.tsx:73-75 | the peer id connected to is the scanned text cut of surrounding white space only, and a text already trimmed is used unchanged |
| SyncPage.ScanPaddedCode | src/pages/Sync.tsx:73-75 | a code scanned with surrounding white space connects with the code itself |
| SyncPage.HandleScanResult | src/pages/Sync.tsx:291-293 | the scanner's result is handled through its first raw value when it is non-empty, and ignored otherwise |
| SyncPage.HostStart | src/pages/Sync.tsx:139-143 | starting as host sets the option to this device and the mode to display, starts the engine and leaves the scanner as it was |
| SyncPage.HostStartResets | src/pages/Sync.tsx:139-143 | the host's state does not depend on the option chosen before, its own data is labelled "Este Dispositivo", and starting twice is starting once |
| TaskMenu.SelectedTask | src/components/tasks/TaskMenu.tsx:60-62 | the selected task is the first task with the selected id, and the blank task when nothing is selected or no task has that id |
| TaskMenu.MarkAsDone | src/components/tasks/TaskMenu.tsx:69-78 | without a selected id the tasks are left as they are |
| TaskMenu.MarkAsDoneEffect | src/components/tasks/TaskMenu.tsx:69-82 | marking changes exactly the tasks with the selected id, flipping `done` and setting `lastSave` to now and nothing else; the others and the id list stay as they were |
| TaskMenu.MarkAsDoneTwice | src/components/tasks/TaskMenu.tsx:69-82 | marking twice gives back every task except for its `lastSave` |
| TaskMenu.AllDoneNotice | src/components/tasks/TaskMenu.tsx:84-101 | the all-done notice is shown exactly when a task was selected and every task in the updated list is done |
| TaskMenu.Pin | src/components/tasks/TaskMenu.tsx:105-114 | without a selected id the tasks are left as they are |
| TaskMenu.PinEffect | src/components/tasks/TaskMenu.tsx:105-119 | pinning changes exactly the tasks with the selected id, flipping `pinned` and setting `lastSave` to now and nothing else; the others and the id list stay as they were |
| TaskMenu.PinTwice | src/components/tasks/TaskMenu.tsx:105-119 | pinning twice gives back every task's `pinned` |
| TaskMenu.Duplicate | src/components/tasks/TaskMenu.tsx:122-140 | without a selected id nothing changes; otherwise exactly one task is appended after the unchanged list |
| TaskMenu.DuplicateCopy | src/components/tasks/TaskMenu.tsx:125-134 | the copy is the selected task with only the new id, the current date and no `lastSave`; a fresh id keeps ids unique |
| TaskMenu.DetailsPath | src/components/tasks/TaskMenu.tsx:60-67 | with no selection, or no task with the selected id, the redirect fails (the blank task has no id); otherwise the path is `/task/` followed by the id with exactly its first `.` cut out, or the id itself when it has none |
| TaskMenu.DetailsPathIdentifies | src/components/tasks/TaskMenu.tsx:64-67 | two found tasks whose ids have no `.` get the same details path only when their ids are equal |
| TaskMenu.EnterMoveMode | src/components/tasks/TaskMenu.tsx:289-302 | move mode goes on, the search is cleared, and the sort option becomes custom; no other setting and no other part of the user changes |
| TaskMenu.EnterMoveModeIdempotent | src/components/tasks/TaskMenu.tsx:289-302 | entering move mode twice is entering it once, and it changes the user exactly when the sort was not custom already, which is when the notice is shown |
| TaskMenu.EnterMoveModeShowsAll | src/components/tasks/TaskMenu.tsx:289-291 | after entering move mode the cleared search lets every task through, so a block no category narrows is shown whole |
| TaskMenu.ReadAloudText | src/components/tasks/TaskMenu.tsx:145-166 | something is spoken exactly when the volume is above zero; the text starts with the name and `. ` when there is a name, starts with the date line when there is neither name nor description, and ends with the date line when there is no deadline |
| TasksList.NarrowIsShown | src/components/tasks/TasksList.tsx:177-191 | the category filter (when a category is selected) followed by the search filter keeps, in order, exactly the tasks that pass both |
| TasksList.MatchesSearch | src/components/tasks/TasksList.tsx:185-188 | the empty search matches every task |
| TasksList.Narrow | src/components/tasks/TasksList.tsx:177-190 | a task is in the narrowed block exactly when it is in the block, has the selected category (if one is selected) and matches the search |
| TasksList.SortTasksPermutation | src/components/tasks/TasksList.tsx:194-219 | sorting a block by any option, including an unknown one that keeps storage order, is a permutation of the block |
| TasksList.SortTasks | src/components/tasks/TasksList.tsx:194-219 | sorting a block keeps its length; an unknown option keeps storage order |
| TasksList.DueDateCmp | src/components/tasks/TasksList.tsx:200-205 | the corrected due-date comparator agrees with the one in the list whenever at least one task has a deadline |
| TasksList.DueDateAsWrittenInconsistent | src/components/tasks/TasksList.tsx:200-205 | the due-date comparator as written is not a consistent comparator: a task without a deadline is not ordered with itself |
| TasksList.ModeLeqTotal | src/components/tasks/TasksList.tsx:195-214 | every selectable order (creation date, corrected due date, name, custom) is total and transitive, given a total and transitive name order |
| TasksList.DueDateOrder | src/components/tasks/TasksList.tsx:200-205 | in a list sorted by due date every task with a deadline precedes every task without one, with deadlines non-decreasing |
| TasksList.CustomOrder | src/components/tasks/TasksList.tsx:208-214 | in a list sorted by the custom order positioned tasks come first with non-decreasing positions, and unpositioned tasks follow in creation order |
| TasksList.BlockMembers | src/components/tasks/TasksList.tsx:173-191 | the pinned block holds exactly the pinned tasks that pass the filters, and the unpinned block exactly the unpinned ones |
| TasksList.TailFacts | src/components/tasks/TasksList.tsx:225-228 | moving the done tasks to the end of the unpinned block is a permutation, after which no not-done task follows a done one |
| TasksList.TailSorted | src/components/tasks/TasksList.tsx:221-228 | moving the done tasks down keeps the not-done part and the done part each in the block's sort order |
| TasksList.ReorderLayout | src/components/tasks/TasksList.tsx:171-231 | the view is the pinned block followed by the unpinned part, and every task shown is one of the user's tasks that passes the filters |
| TasksList.ReorderContents | src/components/tasks/TasksList.tsx:171-231 | the view holds each task that passes the filters exactly as often as the user's tasks do: it is a permutation of the filtered tasks and adds nothing |
| TasksList.ReorderShown | src/components/tasks/TasksList.tsx:173-191 | every task in the view is one of the user's tasks and passes the category and search filters |
| TasksList.ReorderPinnedFirst | src/components/tasks/TasksList.tsx:228-231 | no unpinned task precedes a pinned one in the view |
| TasksList.ReorderDoneToBottom | src/components/tasks/TasksList.tsx:225-231 | with done-to-bottom set, no unpinned done task precedes an unpinned not-done one, and the pinned block is the same as without the setting |
| TasksList.ReorderSorted | src/components/tasks/TasksList.tsx:194-231 | inside the pinned block, and inside the unpinned block or each of its done and not-done parts, the tasks are in the selected order |
| TasksList.AllCategories | src/components/tasks/TasksList.tsx:290-298 | the collected references are exactly the categories carried by some task |
| TasksList.CountWith | src/components/tasks/TasksList.tsx:301-307 | a category's count is the number of tasks carrying its id, at most the number of tasks |
| TasksList.AddFirstReferences | src/components/tasks/TasksList.tsx:292-296 | pushing each category whose id is not yet present gives the first reference per id of the combined list |
| TasksList.FirstReferences | src/components/tasks/TasksList.tsx:287-299 | the loop over the tasks collects the first reference per id among all the tasks' categories, in order of first occurrence |
| TasksList.CountCategories | src/components/tasks/TasksList.tsx:301-307 | the count map has an entry for exactly the collected ids, each equal to the number of tasks carrying that id |
| TasksList.CollectCategories | src/components/tasks/TasksList.tsx:286-322 | the effect's categories are the first references sorted by the count order, and the counts cover exactly their ids |
| TasksList.CountLeqTotal | src/components/tasks/TasksList.tsx:310-319 | ordering by descending count, then by name, is total and transitive given a total and transitive name order |
| TasksList.CollectedCategoriesCover | src/components/tasks/TasksList.tsx:287-299 | the collected categories have distinct ids, and some collected category has the id of every category of every task |
| TasksList.CollectedCategoriesOrder | src/components/tasks/TasksList.tsx:310-319 | the collected categories are in non-increasing task count, and in name order among equal counts |
| TasksList.DeleteSelected | src/components/tasks/TasksList.tsx:731-743 | the bulk delete keeps, in order, the tasks whose id is not selected, changes nothing else in the user but the tombstones, and clears the selection |
| TasksList.DeleteSelectedEffect | src/components/tasks/TasksList.tsx:731-739 | the bulk delete removes exactly the selected tasks, keeps the old tombstones as a prefix, and the new tombstones are exactly the old ones plus the selected ids |
| TasksList.DeleteSelectedNoDup | src/components/tasks/TasksList.tsx:736-739 | without duplicates in the tombstones and in the selection, the bulk delete adds no duplicate tombstone |
| TasksList.MarkSelectedAsDone | src/components/tasks/TasksList.tsx:269-282 | marking the selection done changes only the tasks of the user, and clears the selection |
| TasksList.MarkSelectedAsDoneEffect | src/components/tasks/TasksList.tsx:269-282 | marking the selection done keeps the list and its ids; each selected task becomes done with `lastSave` now and nothing else changed, unselected tasks are untouched, and the done count never drops |
| TasksList.ArrayMove | src/components/tasks/TasksList.tsx:385 | a move keeps the length, puts the moved task at the target index and fills every other index from a definite index of the input |
| TasksList.MoveUnique | src/components/tasks/TasksList.tsx:385 | a move of a list with distinct ids gives a list with distinct ids |
| TasksList.DragOrder | src/components/tasks/TasksList.tsx:377-385 | a drag onto nothing, onto the dragged task itself or with an id not displayed is ignored; otherwise the moved order has the displayed list's length |
| TasksList.DragEnd | src/components/tasks/TasksList.tsx:377-394 | a drag end keeps the number of tasks, and a drag the list ignores changes nothing |
| TasksList.DragEndEffect | src/components/tasks/TasksList.tsx:377-394 | a drag keeps the task ids; each displayed task's position is its index in the moved order with a fresh save time, other tasks are untouched, the dragged task lands at the index of the target, and an ignored drag changes nothing |
| TasksList.RemoveTask | src/components/tasks/TasksList.tsx:242 | removing by id keeps exactly the tasks with other ids, drops nothing else, and removes one task when ids are distinct and the id is present |
| TasksList.TaskListState.ConfirmDeleteTask | src/components/tasks/TasksList.tsx:238-248 | without a selected id nothing changes; otherwise the task with that id goes and the id is appended to the tombstones, even when already there |
| Seqs.Toggle | src/pages/Transfer.tsx:61-69 | after a toggle (here and in the identical handler of src/pages/Purge.tsx:56-64) the clicked task is selected exactly when it was not before, and every other task keeps its selection state |
| Seqs.ToggleTwice | src/pages/Transfer.tsx:61-69 | toggling the same task twice gives back the same selected set, and the same list when the task was not selected at first |
| Transfer.Validate | src/pages/Transfer.tsx:106-188 | a file is accepted exactly when it is JSON, parses to an array, has no task over the name, description or category-name limits, has no invalid task or category colour, and is at most 6 MiB; an accepted file yields its tasks, a wrong type is reported with that type, and the too-long error lists the offending task names, which is never empty |
| Transfer.Assign | src/pages/Transfer.tsx:203-205 | the imported category's id, name and colour win; an optional field the imported category lacks keeps the existing value |
| Transfer.UpsertOne | src/pages/Transfer.tsx:195-206 | an imported category with a new id is appended as it is; one with a known id is assigned onto the first category with that id, in place; the id list grows by the new id only, and categories with other ids are not changed |
| Transfer.UpsertAll | src/pages/Transfer.tsx:193-207 | upserting a sequence of imported categories never shortens the list |
| Transfer.UpsertTaskCategories | src/pages/Transfer.tsx:193-207 | the loop over one task's categories gives the same result as upserting them one by one in order |
| Transfer.UpsertAllConcat | src/pages/Transfer.tsx:193-208 | upserting the categories of two groups of tasks in one pass gives the same result as upserting the first group and then the second |
| Transfer.UpsertCategories | src/pages/Transfer.tsx:191-208 | the nested loops upsert every imported task's categories, in the order the tasks and their categories come |
| Transfer.UpsertIds | src/pages/Transfer.tsx:191-208 | after the upsert the ids are the existing ones in place, followed by the new imported ids in order of first appearance; ids that were unique stay unique |
| Transfer.UpsertKeepsOthers | src/pages/Transfer.tsx:195-206 | an existing category whose id nothing imported has stays unchanged in its place |
| Transfer.MergeStep | src/pages/Transfer.tsx:216-223 | one reduce step: the task is present afterwards and replaces every task with its id; the id list grows by it only when the id was new; unique ids stay unique |
| Transfer.Merge | src/pages/Transfer.tsx:215-223 | the merged task list never has two tasks with the same id |
| Transfer.MergeIds | src/pages/Transfer.tsx:215-223 | the merged ids are the ids of the input in order of first appearance |
| Transfer.MergeLastWins | src/pages/Transfer.tsx:215-223 | a task is in the merged list exactly when it is the last one in the input with its id |
| Transfer.MergeKeepsImported | src/pages/Transfer.tsx:215-225 | every imported task (with unique ids) is in the result, replacing any existing task with its id |
| Transfer.MergeKeepsExisting | src/pages/Transfer.tsx:215-225 | an existing task whose id no imported task has stays in the result |
| Transfer.MergeFromInputs | src/pages/Transfer.tsx:215-225 | every task in the result is an existing or an imported one |
| Transfer.ImportInto | src/pages/Transfer.tsx:191-225 | an import changes only the user's categories and tasks; the tasks come out with unique ids, and unique category ids stay unique |
| Transfer.HandleImport | src/pages/Transfer.tsx:101-225 | a file is refused exactly when validation refuses it, with the error validation gives; otherwise the user is the result of importing the file's tasks |
| Transfer.ImportFromLink | src/pages/Transfer.tsx:276-290 | the link is followed exactly when the text starts with this site's protocol, "//" and host name, and then the address followed is the text itself |
| Transfer.HandleDrop | src/pages/Transfer.tsx:325-343 | a dropped file of size 0 or without a type is rejected as unknown before any import; any other file goes to the import, which is refused with validation's own error exactly when validation refuses the file, and otherwise imports the parsed tasks into the user |

## Left out

- The peer-to-peer sync engine (`usePeerSync`: connections, the merge of replicas, progress) is not part of this model. `SyncPage` records the calls it makes into the engine as `EngineCall` values.
- All rendering is left out: JSX, styling, toasts, dialogs opening, navigation and browser history. Where a result matters it is a returned value, such as the path `DetailsPath` navigates to or the `hash` field of `SettingsRouter`.
- The scanner's open and close buttons and the plain radio or switch setters are left out. Each only assigns one field.
- The severity colour of a sync status is presentation only and is left out.
- Floating point is modelled by exact reals. This covers the completion percentage and the voice volume, so the rounding of `toFixed`/`Math.round` in displayed numbers is not modelled.
- `localeCompare` is an abstract order parameter, and lemmas require it to be a total preorder. `Intl.DisplayNames` is a parameter function (`LanguageRegion`).
- Dates are integer timestamps. `new Date()` is the parameter `now`. The "same day" test (`DueToday`) takes a `dayOf` function. `toISOString` is the parameter `isoOf` (`EventStamp`).
- `Math.random` is the sequence of draws given to `Greeting.RecentGreetings.GetUniqueGreeting`.
- Greeting.RecentGreetings.GetUniqueGreeting: requires that some draw lands on an index not used recently. The source loops until one does, so a sequence of draws that never does is outside the model.
- The emoji regular expressions are not modelled. `EmojiFromAnswer` takes an `Answer`: the emojis the expression extracts and whether the text passes the emoji test.
- The language model itself (session creation and prompting) is not modelled. Only its answer is.
- `LZString` compression and `encodeURIComponent` are parameter functions of `ShareDialog.ShareableLink`. `ShareDialog.ShareableLinkQuery` requires that neither introduces `&`, which the real encoders guarantee.
- The clipboard, `navigator.share`, file downloads and `FileReader` are left out. `JSON.parse` is the `Parsed` input of `Transfer.HandleImport`.
- `speechSynthesis` and `getVoices` are the inputs of `ReadAloud.GetAvailableVoices`.
- The `JSON.stringify` comparison in the edit dialog's disabled-save rule (`EditTask.SaveDisabled`) is modelled as datatype equality, which treats key order as irrelevant.
- Editing a category (`updateCategory` on the categories page) is not part of this model.
- Persistence of the record (`useStorageState`) is left out. Every operation returns the new record.
- Strings are sequences of code points, while JavaScript strings are UTF-16 code units. Lengths differ only for characters outside the Basic Multilingual Plane, and those characters include most emojis. Case mapping covers ASCII letters only.
- Transfer.UpsertCategories: `Object.assign` mutates the existing category object in place, including through aliases held by tasks. The model replaces the category value in the list and does not model the aliasing.
- Purge.PurgeTasks: the source matches purged tasks by reference (`===`). The model matches by value, which picks the same tasks except where two distinct tasks are equal field by field.
- The `try`/`catch` around connecting to a scanned peer id is left out. `SyncPage.HandleScan` records the connection attempt.
- Transfer.ImportFromLink: returns the accepted text itself. The source parses it as a URL and navigates to its path, query and hash, and that URL parsing is not modelled.
- The length limits and default values from `src/constants` are not part of this model. They are parameters (`maxName`, `maxDescription`, `Limits`, `defaultVolume`).

## Findings

| source | as written | input that shows it | evidently intended | confidence | as-written member | corrected member |
|---|---|---|---|---|---|---|
| src/components/tasks/TasksList.tsx:200-205 | the "dueDate" comparator returns 1 whenever the first task has no deadline, so two tasks without a deadline each compare after the other, and such a task compares after itself | two tasks with no deadline, or one task without a deadline compared with itself | tasks without a deadline compare equal to each other and come after all tasks with one | not executed | TasksList.DueDateAsWrittenInconsistent | TasksList.ModeLeqTotal |

The comparator as written is `TasksList.DueDateCmpAsWritten`.
`TasksList.DueDateAsWrittenInconsistent` proves that it is not a total preorder.
ECMAScript leaves the result of `sort` implementation-defined for such a comparator.

The corrected comparator is `TasksList.DueDateCmp`, and the model uses it.
It agrees with the original whenever either task has a deadline.
`TasksList.ModeLeqTotal` proves that it and every other selectable order are total preorders.
`TasksList.DueDateOrder` shows that a list sorted by it has the tasks with deadlines first, ordered by deadline.

## Notes on the code

- The edit dialog saves `category || undefined`. An empty category list is truthy in JavaScript, so it is kept as `[]`; only a missing list stays missing. `EditTask.Save` follows the code.
- Duplicating from the task menu when the selected id is not found copies `{}`, a blank task. `TaskMenu.Duplicate` models that case.
