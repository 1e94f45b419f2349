# S-Translate message creator, modelled in Dafny

S-Translate drives the GNU gettext tools for one translation domain. The
`MessageCreator` class lays out the locale tree `<locale_dir>/<language>/LC_MESSAGES`.
It extracts a template catalogue `<locale_dir>/<domain>.pot` with `xgettext` and
rewrites that template's charset placeholder to UTF-8. It then creates or merges
one `.po` catalogue per language with `msgmerge`, and compiles each catalogue to
a `.mo` file with `msgfmt`. Each phase has its own failure policy:

- a failed extraction means "nothing to translate";
- a failed merge raises `MessageCreatorError` and stops the remaining languages;
- a failed compile is reported, and the other languages are still compiled.

This model covers:

- the class itself;
- how its domain, languages and locale directory are resolved:
  argument, then environment variable, then built-in default;
- the `print_color` helper;
- the reusable parts of the integration-test base class: its path helpers, the
  in-place filling of one translation, and the rule by which its metaclass
  exposes inherited `_test_` methods.

Modules, one per concern:

- `Text` (`text.dfy`): the Python `str` operations the code relies on, with
  Python's semantics.
  - `in`: the empty string occurs everywhere.
  - `replace`: leftmost, non-overlapping.
  - `split(',')`: `''.split(',')` is `['']`.
  - `strip()`: Python's whitespace set.
- `Files` (`files.dfy`): a `FileSystem` object holding the set of existing
  directories and the content of every file. The `pathlib`, `open` and `shutil`
  calls become its methods.
- `Configuration` (`configuration.dfy`): the `argument or getenv(...)` rules of
  `MessageCreator.__init__`.
- `MessageCreation` (`message_creator.dfy`): the `MessageCreator` class.
  - Its phases are methods that change a `FileSystem`.
  - Each method is proved equal to a specification function: `ExtractTemplate`,
    `SyncUpTo` (the per-language merge loop with its early exit) and
    `CompileUpTo`.
  - Lemmas about those functions state what the phases promise.
- `PrintColor` (`print_color.dfy`): the line `print_color` writes.
- `BaseTestCase` (`base_test_case.dfy`): `_fill_translation`, the path helpers,
  `_create_gettext_messages`, and `TestCaseMeta.__new__`.

External tools are not run. Each invocation's outcome is an input:

- `ExtractorRun` for the `find | xargs xgettext` pipeline;
- one `ToolOutcome` per language for `msgmerge` and for `msgfmt`.

Each outcome says what the tool wrote, or which of the three caught exceptions
occurred. An exception that propagates is returned as a value:

- `Status.Aborted` for `MessageCreatorError`;
- `found == false` where `fileinput` raises on a missing catalogue.

The built-in defaults come from `settings.py`, which is not part of this model,
so they are a `Defaults` parameter.

The template step has handlers for `CalledProcessError` and `TimeoutExpired`
(s_translation/message_creator.py:77-80), which suggest that a failing or slow
extractor aborts it. The code does not behave that way, and the model follows
the code.

- Extraction runs `subprocess.run` without `check`, and sets no timeout, so
  those two handlers can never fire. The template step fails only when `bash`
  is missing or no template file exists afterwards.
- A stale template from an earlier run counts as success when `bash` ran but the
  extractor wrote nothing.
- The charset rewrite only replaces the `charset=CHARSET` placeholder. A
  template without it is left as it is, and gains no UTF-8 declaration.
- `msgfmt` is given the catalogue path without its `.po` suffix. The model
  records the argument vector as written (`CompileSourceIsCatalogueStem`).

## Model

| member | source | states |
|---|---|---|
| Configuration.GetEnv | s_translation/message_creator.py:23-29 | `os.getenv(name, fallback)`: the variable's value when it is set, the fallback otherwise; its use is stated by `ResolveText` and `ResolveLanguages` |
| MessageCreation.MessageCreator.constructor | s_translation/message_creator.py:22-30 | domain, languages and locale directory are the resolved argument/environment/default values; the template path is `<locale_dir>/<domain>.pot` |
| Configuration.ResolveText | s_translation/message_creator.py:23 | a non-empty argument wins; otherwise the environment value, even an empty one; otherwise the default |
| Configuration.NonBlankStripped | s_translation/message_creator.py:26 | every kept item is trimmed, and there are no more items than input pieces |
| Configuration.NonBlankStrippedEmpty | s_translation/message_creator.py:26 | nothing is kept exactly when every item is blank once stripped |
| Configuration.NonBlankStrippedAppend | s_translation/message_creator.py:26 | the comprehension works item by item: the kept items of `a + b` are those of `a` followed by those of `b` |
| Configuration.NonBlankStrippedKeeps | s_translation/message_creator.py:26 | every item that is not blank once stripped is kept in stripped form, after the items kept from before it |
| Configuration.StrippedAvoids | s_translation/message_creator.py:26 | a character absent from every piece is absent from every kept item |
| Configuration.ParseLanguages | s_translation/message_creator.py:26 | every language parsed from `GETTEXT_LANGUAGES` is non-empty, has no surrounding whitespace and holds no comma |
| Configuration.OnlySeparators | s_translation/message_creator.py:26 | a value made only of commas and whitespace |
| Configuration.ParseEmptyIff | s_translation/message_creator.py:26 | a `GETTEXT_LANGUAGES` value names no language exactly when it holds only commas and whitespace |
| Configuration.ParseJoinedPieces | s_translation/message_creator.py:26 | parsing a comma join of comma-free pieces gives the pieces that are not blank, stripped, in order |
| Configuration.ResolveLanguages | s_translation/message_creator.py:24-28 | a non-empty argument wins; with no argument, the default is used exactly when the variable is unset or holds only commas and whitespace, and otherwise the result is the non-empty parse of the variable |
| Configuration.ParseJoined | s_translation/message_creator.py:26 | parsing a comma join of clean language names gives exactly those names back |
| Configuration.LanguagesFromEnvironment | s_translation/message_creator.py:24-28 | with no argument, `GETTEXT_LANGUAGES` set to a join of one or more clean names yields exactly those names |
| Configuration.PaddedLanguages | s_translation/message_creator.py:24-28 | with no argument, `GETTEXT_LANGUAGES="pl, de"` gives `pl` and `de`, whatever the default |
| Text.Strip | s_translation/message_creator.py:26 | a non-blank `strip()` has no whitespace at either end |
| Text.IsSpace | s_translation/message_creator.py:26 | Python's `str.isspace()` on one character: the ASCII whitespace and separator controls (9-13, 28-32) and the Unicode spaces |
| Text.Trimmed | s_translation/message_creator.py:26 | non-empty, with no whitespace at either end |
| Text.TrimStart | s_translation/message_creator.py:26 | Python's `lstrip()`; `TrimStartSpec` states what it removes |
| Text.TrimStartSpec | s_translation/message_creator.py:26 | `lstrip()` drops only leading whitespace and keeps a tail that does not start with whitespace |
| Text.TrimEnd | s_translation/message_creator.py:26 | Python's `rstrip()`; `TrimEndSpec` states what it removes |
| Text.TrimEndSpec | s_translation/message_creator.py:26 | `rstrip()` drops only trailing whitespace and keeps a head that does not end with whitespace |
| Text.StripBlank | s_translation/message_creator.py:26 | `strip()` is blank exactly when the item is all whitespace |
| Text.StripChars | s_translation/message_creator.py:26 | `strip()` uses only the item's own characters |
| Text.StripTrimmed | s_translation/message_creator.py:26 | stripping an already trimmed item changes nothing |
| Text.Split | s_translation/message_creator.py:26 | `split(',')` never returns an empty list and no piece holds a comma |
| Text.JoinSplit | s_translation/message_creator.py:26 | joining the pieces of a split gives the text back |
| Text.SplitJoin | s_translation/message_creator.py:26 | splitting a join of one or more comma-free pieces gives the pieces back |
| Text.Contains | s_translation/message_creator.py:26 | Python's `w in s`: `w` is a prefix of `s` or of one of its tails, so the empty text occurs everywhere; its meaning is stated by `ContainsInfix` and used by `MessageIntact` and `SetUpFillsTranslation` |
| Text.Replace | s_translation/message_creator.py:70 | Python's `str.replace`: leftmost, non-overlapping, scanning on after each replacement; its meaning is stated by `ReplaceAbsent`, `ReplaceFirst`, `ReplaceSkips` and `ReplaceLeavesNone` |
| Text.Join | s_translation/message_creator.py:26 | Python's `sep.join(parts)`, the inverse of `split`, as `JoinSplit` and `SplitJoin` state |
| Text.JoinChars | s_translation/message_creator.py:26 | every character of a join is the separator or a character of one of the parts |
| Text.ReplaceAbsent | s_translation/message_creator.py:70 | `replace` leaves text without an occurrence unchanged |
| Text.ReplaceFirst | s_translation/message_creator.py:70 | for a pattern that cannot overlap itself, the first occurrence is replaced and the text before it is kept |
| Text.ReplaceLeavesNone | s_translation/message_creator.py:70 | when the replacement cannot recreate the pattern, no occurrence remains afterwards |
| Text.ReplaceSkips | tests/base_test_case.py:112 | text free of the pattern's first character is copied unchanged by `replace` |
| MessageCreation.RewriteCharset | s_translation/message_creator.py:70 | the template rewrite `replace('charset=CHARSET', 'charset=UTF-8')`; what it does is stated by the three `Rewrite` lemmas below |
| MessageCreation.RewriteLeavesNoPlaceholder | s_translation/message_creator.py:70 | after the rewrite no `charset=CHARSET` remains, even where `charset=UTF-8` meets surrounding text |
| MessageCreation.RewriteKeepsPlainText | s_translation/message_creator.py:70 | a template without the placeholder is left as it is |
| MessageCreation.RewriteEachOccurrence | s_translation/message_creator.py:70 | each occurrence becomes `charset=UTF-8` and the text around it is kept |
| MessageCreation.MessageCreator.LocaleDirByLanguage | s_translation/message_creator.py:32-33 | `<locale_dir>/<language>/LC_MESSAGES`; `LanguageInPath` and `PathsDistinct` state that it tells languages apart |
| MessageCreation.MessageCreator.MessageFile | s_translation/message_creator.py:91 | the catalogue `<language directory>/<domain>.po`; distinct per language by `PathsDistinct` |
| MessageCreation.MessageCreator.BackupFile | s_translation/message_creator.py:106 | the `msgmerge` backup `<catalogue>~`; distinct from every other path by `PathsDistinct` |
| MessageCreation.MessageCreator.MessageObjectFile | s_translation/message_creator.py:125 | the compiled file `<language directory>/<domain>.mo`; distinct per language by `PathsDistinct` |
| MessageCreation.MessageCreator.CompileSource | s_translation/message_creator.py:126 | the `msgfmt` input `<language directory>/<domain>`, which `CompileSourceIsCatalogueStem` relates to the catalogue |
| MessageCreation.MessageCreator.CompileCommand | s_translation/message_creator.py:126 | the argument vector `msgfmt -o <mo> <stem>`; `GenerateMessageObjects` states it is run once per language, in order |
| MessageCreation.MessageCreator.LanguageInPath | s_translation/message_creator.py:32-33 | the language can be read back from its `.po` and `.mo` paths |
| MessageCreation.MessageCreator.PathsDistinct | s_translation/message_creator.py:30-33 | the template, each catalogue, each backup and each compiled file are pairwise distinct paths; the same kind of path differs for distinct languages |
| MessageCreation.MessageCreator.CompileSourceIsCatalogueStem | s_translation/message_creator.py:124-126 | the `msgfmt` input is the catalogue path minus `.po` |
| MessageCreation.MessageCreator.LanguageDirs | s_translation/message_creator.py:52-54 | the directories the loop makes for the first `n` languages: each language directory with its parents; `LanguageDirsCover` and `LanguageDirsOnly` state what the set holds |
| MessageCreation.MessageCreator.LanguageDirsCover | s_translation/message_creator.py:52-54 | every language directory is among the directories made |
| MessageCreation.MessageCreator.LanguageDirsOnly | s_translation/message_creator.py:52-54 | every directory made is a language directory or a parent of one |
| MessageCreation.MessageCreator.CreateDirectories | s_translation/message_creator.py:48-54 | each language directory and its parents exist afterwards; existing directories stay; no file changes; nothing else is created |
| MessageCreation.MessageCreator.DirectoriesIdempotent | s_translation/message_creator.py:48-54 | calling `_create_directories` twice leaves the tree exactly as one call does |
| MessageCreation.MessageCreator.ExtractTemplate | s_translation/message_creator.py:56-81 | success iff the extractor wrote a template, or it ran (`bash` found) without writing and one already exists; on success the template holds the rewritten content with no placeholder; on failure nothing changes; no other path changes |
| MessageCreation.MessageCreator.CreateTemplateMessageFile | s_translation/message_creator.py:56-81 | its result and the new files are those of `ExtractTemplate`; directories unchanged |
| MessageCreation.MessageCreator.Merged | s_translation/message_creator.py:103-106 | one `msgmerge --update`: on success the catalogue holds the merge output and its `~` backup is gone, on failure nothing changes; `UpdateLocaleMessageFile` is proved to have this effect |
| MessageCreation.MessageCreator.UpdateLocaleMessageFile | s_translation/message_creator.py:99-115 | true exactly when `msgmerge` succeeded; then the catalogue holds the merged text and the `~` backup is gone; otherwise nothing changes |
| MessageCreation.MessageCreator.SyncStep | s_translation/message_creator.py:91-97 | one language touches only its catalogue and backup and keeps the template |
| MessageCreation.MessageCreator.SyncUpTo | s_translation/message_creator.py:90-97 | the template is kept through every language |
| MessageCreation.MessageCreator.MakeLocaleMessageFiles | s_translation/message_creator.py:83-97 | given that every language directory exists, the files and the raise are those of `SyncUpTo` over all languages; directories unchanged |
| MessageCreation.MessageCreator.SyncRaisedFinal | s_translation/message_creator.py:96-97 | once the error is raised, later languages are not processed |
| MessageCreation.MessageCreator.SyncFrame | s_translation/message_creator.py:90-97 | paths other than the processed languages' catalogues and backups are left alone |
| MessageCreation.MessageCreator.MergeFails | s_translation/message_creator.py:92-97 | the raise condition for one language: its catalogue already exists and `msgmerge` did not succeed |
| MessageCreation.MessageCreator.SyncRaisedIff | s_translation/message_creator.py:92-97 | for distinct languages, `MessageCreatorError` is raised iff some existing catalogue's merge fails |
| MessageCreation.MessageCreator.SyncLanguage | s_translation/message_creator.py:90-97 | a missing catalogue becomes a copy of the template, an existing one holds the merge output without backup, and one not reached or whose merge fails is unchanged |
| MessageCreation.MessageCreator.SyncOtherPaths | s_translation/message_creator.py:90-97 | paths that are no language's catalogue or backup, such as the template, are left alone |
| MessageCreation.MessageCreator.FreshCataloguesCopyTemplate | s_translation/message_creator.py:92-94 | on a fresh tree nothing is raised and every catalogue is an exact copy of the template |
| MessageCreation.MessageCreator.CreateMessageFiles | s_translation/message_creator.py:35-46 | directories are made first, as the catalogue step requires; the languages are synchronised only when the template step succeeded; otherwise the files are unchanged and "nothing to translate" is reported |
| MessageCreation.MessageCreator.Compiled | s_translation/message_creator.py:125-135 | one `msgfmt` run: on success the `.mo` file holds its output, otherwise nothing changes |
| MessageCreation.MessageCreator.CompileUpTo | s_translation/message_creator.py:123-135 | the first `n` languages compiled in order, each whatever the others did; `ObjectsGenerated`, `CompileFrame` and `CompileLanguage` state its effect |
| MessageCreation.MessageCreator.GenerateMessageObjects | s_translation/message_creator.py:117-135 | every language is tried in order with `msgfmt -o <mo> <stem>`; the files are those of `CompileUpTo`; nothing is raised |
| MessageCreation.MessageCreator.ObjectsGenerated | s_translation/message_creator.py:123-128 | compiling removes no file, and each language whose `msgfmt` succeeded has its `.mo` file whatever the others did |
| MessageCreation.MessageCreator.CompileFrame | s_translation/message_creator.py:123-135 | compiling leaves every path but the `.mo` files alone |
| MessageCreation.MessageCreator.CompileLanguage | s_translation/message_creator.py:123-135 | for distinct languages, each `.mo` holds its own `msgfmt` output, or is unchanged when that run failed |
| Files.Parents | s_translation/message_creator.py:54 | `mkdir(parents=True)` makes the path itself and only prefixes of it |
| Files.FileSystem.IsFile | s_translation/message_creator.py:92 | `Path(path).is_file()`: the path holds a file |
| Files.FileSystem.MakeDirs | s_translation/message_creator.py:54 | the directory and its parents exist afterwards; existing ones are no error; files unchanged |
| Files.FileSystem.Read | s_translation/message_creator.py:68-69 | the content of an existing file, or the missing-file error |
| Files.FileSystem.Write | s_translation/message_creator.py:71-72 | the file holds exactly the new content; nothing else changes |
| Files.FileSystem.CopyFile | s_translation/message_creator.py:93 | the target holds the source's content; nothing else changes |
| Files.FileSystem.Unlink | s_translation/message_creator.py:106 | the file is gone, and a missing one is no error |
| PrintColor.PrintColor | s_translation/utils/print_color.py:17-22 | a known style wraps the message in its code and the reset code; any other prints it plainly |
| PrintColor.StylesAreColours | s_translation/utils/print_color.py:1-14 | the styles are the eight colours other than `ENDC`; `ENDC` and `''` print plainly |
| PrintColor.MessageIntact | s_translation/utils/print_color.py:20-22 | the message always appears whole on the line |
| PrintColor.PlainIffUnknown | s_translation/utils/print_color.py:18-22 | the line is the bare message exactly when the style is unknown |
| PrintColor.StyledLineResets | s_translation/utils/print_color.py:21-22 | a styled line starts with an escape and ends with the reset code |
| PrintColor.StylesDistinguishable | s_translation/utils/print_color.py:1-10 | distinct styles give distinct lines |
| BaseTestCase.TemplateMessageFile | tests/base_test_case.py:84-85 | the test's template path `<LOCALE_DIR>/<DOMAIN>.pot`; `PathsAgree` equates it with the creator's |
| BaseTestCase.LocaleDirByLanguage | tests/base_test_case.py:91-93 | the test's language directory; `PathsAgree` equates it with the creator's |
| BaseTestCase.MessageFileByLanguage | tests/base_test_case.py:87-89 | the test's catalogue path; `PathsAgree` equates it with the creator's |
| BaseTestCase.MessageObjectFileByLanguage | tests/base_test_case.py:95-96 | the test's compiled-file path; `PathsAgree` equates it with the creator's |
| BaseTestCase.PathsAgree | tests/base_test_case.py:84-96 | the test path helpers name exactly the creator's template, locale directory, catalogue and compiled file |
| BaseTestCase.Lines | tests/base_test_case.py:110 | the lines `fileinput` yields concatenate to the file, and none is empty |
| BaseTestCase.LinesEndAtNewlines | tests/base_test_case.py:110 | every line but the last ends with a newline |
| BaseTestCase.LinesHaveNoInnerNewline | tests/base_test_case.py:110 | no line holds a newline before its last character |
| BaseTestCase.Filled | tests/base_test_case.py:112 | `line.replace('""', f'"{TRANSLATED_TEXT}"')`; `EmptyStringFilled` states its effect on a `msgstr ""` line |
| BaseTestCase.FillLines | tests/base_test_case.py:109-117 | every line of the catalogue put through the fill loop; `FillLine`, `FillWithoutText` and `TranslationFilled` state what it writes |
| BaseTestCase.FillUpTo | tests/base_test_case.py:109-117 | after each line read, exactly one line has been written |
| BaseTestCase.FillPrefix | tests/base_test_case.py:109-117 | later lines never change a line already written |
| BaseTestCase.FillLine | tests/base_test_case.py:109-117 | a line is filled exactly when the previous written line holds the text, and copied otherwise |
| BaseTestCase.FillWithoutText | tests/base_test_case.py:109-117 | a catalogue without the text is written back unchanged |
| BaseTestCase.EmptyStringFilled | tests/base_test_case.py:112 | a line `<key>""`, with no quote in the key (such as `msgstr `), becomes `<key>"<translation>"` |
| BaseTestCase.TranslationFilled | tests/base_test_case.py:107-117 | the empty `msgstr ""` line right after a line holding the text (and no `""` of its own) receives the translation |
| BaseTestCase.FillTranslation | tests/base_test_case.py:107-117 | the loop writes exactly the lines of `FillLines` |
| BaseTestCase.FillTranslationFile | tests/base_test_case.py:107-117 | the catalogue is rewritten in place with the filled lines; a missing catalogue is an error; either way any `<catalogue>.bak` is removed and nothing else changes |
| BaseTestCase.BackupOf | tests/base_test_case.py:110 | the `<path>.bak` backup that `fileinput` keeps while it rewrites a file in place |
| BaseTestCase.CreatedFiles | s_translation/message_creator.py:35-46 | the files `create_message_files` leaves: the synchronised catalogues when the template step succeeded, the files as they were otherwise |
| BaseTestCase.CreatorRaises | s_translation/message_creator.py:42-43 | `create_message_files` raises exactly when the template step succeeded and a merge then failed |
| BaseTestCase.FilledFiles | tests/base_test_case.py:107-117 | the files after `_fill_translation` on an existing catalogue: the catalogue rewritten with the filled lines, and no `.bak` backup |
| BaseTestCase.SetUpFillsTranslation | tests/base_test_case.py:52-56 | after a set-up that got through, the catalogue the test reads still holds the filled `msgstr` line, since compiling only writes `.mo` files |
| BaseTestCase.CreateGettextMessages | tests/base_test_case.py:52-56 | create, then fill the test's own catalogue path, then compile: it stops with the creator's files iff the creator raises, stops with the old backup removed iff that catalogue is then missing, and otherwise ends with the compiled files of the filled state, having run one `msgfmt` per language |
| BaseTestCase.Copy | tests/base_test_case.py:17-18 | one inner iteration: a `_test_` function whose public name is not yet taken is copied to it, anything else is skipped |
| BaseTestCase.CopyItems | tests/base_test_case.py:16-18 | the namespace after the first `n` items of one base; `ItemsKeep`, `ItemsExpose`, `ItemsOnly` and `ItemsFirst` state its effect |
| BaseTestCase.InheritUpTo | tests/base_test_case.py:15-18 | the namespace after all items of the first `n` bases, in base order |
| BaseTestCase.MetaclassNamespace | tests/base_test_case.py:13-19 | the namespace handed to `type.__new__`: unchanged for a name containing `Base`, otherwise every base walked in order; `NeverOverwrites`, `HooksExposed`, `OnlyHooksAdded` and `FirstSupplierWins` state what it holds |
| BaseTestCase.NewClassNamespace | tests/base_test_case.py:13-19 | the loops build exactly `MetaclassNamespace` |
| BaseTestCase.NeverOverwrites | tests/base_test_case.py:13-19 | a name of the class's own namespace is never overwritten; a name containing `Base` leaves it unchanged |
| BaseTestCase.HooksExposed | tests/base_test_case.py:15-18 | the public name (without the leading underscore) of every `_test_` function of every base is bound afterwards |
| BaseTestCase.OnlyHooksAdded | tests/base_test_case.py:15-18 | every added name is the public name of some base's `_test_` function, holding that function |
| BaseTestCase.FirstSupplierWins | tests/base_test_case.py:15-18 | the first function to supply a name, by base order and then item order, is the one exposed |
| BaseTestCase.ItemsFirst | tests/base_test_case.py:16-18 | within one base, the first item supplying a name wins |

## Left out

- Console output: `print_color` is modelled as the line it writes. The messages
  the creator prints at each step are not modelled, since they change no state.
- PrintColor.PrintColor: `styles` also lists the class's own dunder attributes
  (`__module__`, `__doc__` and the like). Passing one of those as a style prints
  its value with a reset code. The model treats them as unknown styles, because
  they are an accident of `BColors.__dict__`.
- The built-in defaults in `settings.py` are not part of this model. They are an
  input.
- The runtime lookup in s_translation/gettext.py is not part of this model:
  `Translation.__init__` (which reads `GETTEXT_LANGUAGE`), `Translation.gettext`,
  and the module-level `gettext = Translation().gettext`.
- The real behaviour of `xgettext`, `msgmerge` and `msgfmt` is not modelled.
  That includes preserving translations and adding new keys in a merge, and
  compiling a catalogue. Only what each run wrote, or how it failed, is an input.
- Timeouts: a `TimedOut` outcome stands for `TimeoutExpired`. Time itself is not
  modelled.
- Files.FileSystem: paths are plain strings. There is no normalisation of `.`,
  `..` or doubled slashes. `mkdir` meeting an existing regular file, and
  permission errors, are not modelled.
- Files.FileSystem.Write and CopyFile do not check that the target's directory
  exists, so the `FileNotFoundError` that `shutil.copyfile` raises into a
  missing directory is not modelled. Instead, MakeLocaleMessageFiles requires
  every language directory to exist, and CreateMessageFiles meets that by
  making the directories first. A domain containing `/` puts the catalogue in a
  subdirectory that is never made; the model does not capture the failure that
  follows.
- MessageCreation.MessageCreator.UpdateLocaleMessageFile: a failing `msgmerge`
  is taken to leave the catalogue as it was. A partial write by the tool is not
  modelled.
- Text-mode newline translation on reading and writing files is not modelled.
  Contents are exact strings.
- MessageCreation.MessageCreator.SyncRaisedIff, SyncLanguage, CompileLanguage
  and FreshCataloguesCopyTemplate assume distinct languages. The source allows a
  repeated language. The step-by-step functions and the methods cover that case;
  these closed forms do not.
- `tearDownClass` / `_remove_locale_dir` (deleting the locale tree) and the
  abstract hooks `_set_gettext_params`, `_set_message_creator` and
  `_get_translated_text_from_file` are not modelled. They are fixtures without
  behaviour of their own here. `_test_all`'s expectations appear as the lemmas
  about synchronisation, compilation and filling.
- BaseTestCase.NewClassNamespace: the class object `type.__new__` builds is not
  modelled, only the namespace handed to it.
- BaseTestCase.CreateGettextMessages: the test class's `LOCALE_DIR` and
  `DOMAIN` are string inputs, separate from the creator's. Where a test sets one
  of them from an unset environment variable, Python's f-string renders `None`
  as the text `None`; the model expects that text as the input.
- BaseTestCase.FillTranslationFile: the catalogue's file mode and the brief
  window in which only the `.bak` copy exists are not modelled, only the files
  before and after.
