# bilingual-github: translation reconciliation, modelled in Dafny

bilingual-github is a bot that keeps English/Japanese (and French) translations next to
the texts people write on GitHub and in a repository. This project models its three
pieces of reconciliation logic and proves properties of them.

- **The pull-request reconciler** (`src/actions/translate_prs.py`). It removes every
  `<!-- TRANSLATION-START -->` … `<!-- TRANSLATION-END -->` block from a description or
  comment and appends one fresh block. The block holds the translated title, the
  translated body and the original text under an `Original Content:` marker. The
  language is chosen by counting Japanese against Latin characters. The new text is
  written only when it differs from the old one after `strip()`.
- **The issue-comment reconciler** (`src/actions/translate_comments.py`). It rewrites a
  comment as `<details>` blocks, one per translation, followed by
  `**Original Comment:**` and the original text. It skips the comment when the text
  before the marker equals the text after it, up to surrounding white space and
  `\r\n`.
- **The post-commit Markdown sync** (`src/hooks/post_commit.py`). It decides which
  `.md` files are originals and derives `name.<lang>.md` with `Path.with_suffix`.
  It re-translates a language only when the translated file is missing, or when its
  lines differ from the original's.

Layout, one module per file:

| file | module | what it holds |
|---|---|---|
| `strings.dfy` | `Strings`, `Letters` | Python's `strip`, `lstrip`, `find`, `split`, `join`, `replace('\r\n', '\n')`, `splitlines`, ASCII `lower` and `capitalize`, with their laws |
| `services.dfy` | `Services` | `Option`, dicts as ordered entry lists, and the service calls: the translation service (`Translator`) and the objects written to (`Comment`, `PullRequest`, `FileStore`); edits and file writes are kept in a ghost log |
| `blocks.dfy` | `Blocks` | non-greedy DOTALL removal of marker-delimited spans, and the framed block appended to a text |
| `pr_translation.dfy` | `PrTranslation` | `src/actions/translate_prs.py` |
| `comment_translation.dfy` | `CommentTranslation` | `src/actions/translate_comments.py` |
| `markdown_sync.dfy` | `MarkdownSync` | `src/hooks/post_commit.py` over a map from path to content |

How the model is set up:

- **The translation service.** `translate_text(text, lang)` is a function `answer`
  held by a `Translator` object, which returns `Option<String>`. `None` stands for the
  exception the service catches. Every call is appended to the ghost log `requests`, so
  each method states exactly which calls it makes, in order. Within one run, the same
  text and language give the same answer.
- **Writes.** `pr.edit`, `comment.edit`, `pr.add_to_labels` and `write_text` are methods
  on small classes. `pr.edit`, `comment.edit` and `write_text` record each write in a
  ghost log next to the field they change. `pr.add_to_labels` keeps no log: it only
  appends to the label list.
- **Loops.** The source loops over languages and dict entries in
  `translate_content`, `format_translations` and `sync_translations`. Each of these is a
  Dafny `method` with a loop. Its `ensures` ties the result or the new state to a
  specification function, and the properties are proved about those functions.

Behaviour of the code that the model keeps as written:

- The PR script counts Japanese against Latin characters, using three Unicode ranges
  (Hiragana, Katakana and the CJK Unified Ideographs). Its Latin range is
  U+0041–U+007A, so `[`, `\`, `]`, `^`, `_` and `` ` `` count as Latin; the model keeps
  that range. The comment script instead tests for any code point above 128
  (`ord(c) > 128`).
- The comment script always writes when it has translations; there is no
  compare-before-write. A second run on a comment it wrote does not stop: the rendered
  translations sit before the marker, so they differ from the original after it
  (`CommentTranslation.SecondRunTranslatesBlocks`). The PR script does compare, and a
  second run there writes nothing (`PrTranslation.PrBodyIdempotent`,
  `PrTranslation.PrCommentIdempotent`).
- The Markdown sync compares `splitlines()` sequences, and it compares the existing
  *translation* with the *original*. After a run has written a translation, the next
  run asks the service for that language again exactly when the translation and the
  original have different lines (`MarkdownSync.NextRunNeeds`).

## Model

| member | source | states |
|---|---|---|
| Blocks.RemoveSpansSplice | src/actions/translate_prs.py:29-33 | a START…END span is cut out together with everything between its markers, and the text before it is kept as it is, whenever that START is the first one and that END the first after it |
| PrTranslation.StripBlocks | src/actions/translate_prs.py:29-34 | `strip_translation_block` always returns a stripped text |
| PrTranslation.BuildBlockShape | src/actions/translate_prs.py:36-37 | the block opens with a newline and the START marker on its own line, ends with the END marker on its own line, and holds the text exactly in between |
| PrTranslation.StripBlocksOfAppended | src/actions/translate_prs.py:29-37 | when `s` has no START marker and `t` has no END marker, stripping the blocks of `s + build_translation_block(t)` gives `s.strip()` |
| PrTranslation.StripBlocksOfStrippedAppended | src/actions/translate_prs.py:29-37 | the same for a stripped `s` when the whole text was stripped first, as `translate_pr_comment` does: `s` comes back exactly |
| PrTranslation.ReplaceBlock | src/actions/translate_prs.py:93 | rebuilding a body that already carries a block yields the stripped text and only the new block: the old block is replaced, not stacked |
| PrTranslation.RemoveBrRuns | src/actions/translate_prs.py:45 | `re.sub(r'^(<br>\\s*)+', '', s)` returns a suffix of `s` that no longer starts with `<br>` and a backslash, and returns `s` itself when `s` does not start with them |
| PrTranslation.RemoveBrRunsMatches | src/actions/translate_prs.py:45 | the prefix removed is a sequence of whole matches of `<br>\\s*` (`<br>`, a backslash, then only `s`), and the match is greedy: when something was removed, what is left does not start with `s` |
| PrTranslation.GetOriginalContent | src/actions/translate_prs.py:39-47 | the original content is always stripped |
| PrTranslation.AfterFirstMarker | src/actions/translate_prs.py:42-46 | whatever precedes the first `Original Content:`, the text after it is taken, left-stripped, cleared of leading `<br>` runs and stripped |
| PrTranslation.OriginalAfterMarker | src/actions/translate_prs.py:42-46 | whatever precedes the first marker, white space and a `<br>` run after it are dropped, and the stripped original that follows them is returned exactly |
| PrTranslation.OriginalWithoutMarker | src/actions/translate_prs.py:47 | without the marker, the original is the stripped text with its blocks removed |
| PrTranslation.OriginalIgnoresAppendedBlock | src/actions/translate_prs.py:39-47 | appending a fresh block to a block-free body changes neither that body nor its original content |
| PrTranslation.DetectLanguage | src/actions/translate_prs.py:49-56 | the detected language is `"ja"` or `"en"` and nothing else |
| PrTranslation.CountAppend | src/actions/translate_prs.py:50-53 | the character counts of a concatenation are the sums of the counts of its parts |
| PrTranslation.DetectNoJapanese | src/actions/translate_prs.py:49-56 | a text without Hiragana, Katakana or CJK ideographs, the empty text included, is `"en"` |
| PrTranslation.DetectAllJapanese | src/actions/translate_prs.py:49-56 | a non-empty text made only of Japanese characters is `"ja"` |
| PrTranslation.DetectMajority | src/actions/translate_prs.py:49-56 | for Japanese characters followed by characters of U+0041..U+007A, the text is `"ja"` iff the Japanese ones are strictly more: a tie goes to English |
| PrTranslation.DetectAppend | src/actions/translate_prs.py:49-56 | two texts detected as the same language are detected as that language together |
| PrTranslation.TargetLanguages | src/actions/translate_prs.py:58-63 | there is exactly one target, never the source language: `"ja"` exactly when the source is `"en"`, and `"en"` for any other source |
| Services.Put | src/actions/translate_prs.py:86 | dict assignment: the key maps to the new text, other keys are unchanged, and a new key goes last in insertion order |
| Services.GatherFresh | src/actions/translate_prs.py:83-86 | filling a dict from the service adds exactly the languages with a non-empty answer, in target order, each mapped to its answer |
| PrTranslation.TranslationsShape | src/actions/translate_prs.py:80-87 | `translate_content` maps the source language to the content, then adds the one target iff the service's answer is non-empty |
| PrTranslation.TranslateContent | src/actions/translate_prs.py:80-87 | the loop builds that dict and asks the service once per target language, in order |
| PrTranslation.FormatPr | src/actions/translate_prs.py:65-78 | the formatted block is stripped |
| PrTranslation.FormatPrLayout | src/actions/translate_prs.py:65-78 | title lines come first, then body `<details>` blocks, joined by blank lines; the result always ends with `**Original Content:**`, followed by a blank line and the original when the original is non-empty; an empty original leaves the marker line last |
| PrTranslation.TitlePartsShown | src/actions/translate_prs.py:67-69 | a `## ` line appears for every non-empty title translation in another language, and for nothing else |
| PrTranslation.BodyPartsShown | src/actions/translate_prs.py:70-75 | a `<details>` block named after its language appears for every non-empty body translation in another language, and for nothing else |
| PrTranslation.FormatTranslations | src/actions/translate_prs.py:65-78 | the looping formatter computes exactly the specified layout |
| PrTranslation.TranslationBodyParts | src/actions/translate_prs.py:70-75 | for a dict from `translate_content`, the only body block is the target's, present iff its answer is non-empty |
| PrTranslation.FormatCommentBlock | src/actions/translate_prs.py:107 | a comment's block is the target's `<details>` block and a blank line, when there is one, followed by the original part, whose blank line and original are dropped when the original is empty |
| PrTranslation.FormatPrNoEnd | src/actions/translate_prs.py:65-78 | when no translation and no original holds the END marker, neither does the formatted block |
| PrTranslation.TranslatePr | src/actions/translate_prs.py:89-97 | the title and then the body are translated; the description is edited at most once, exactly when the new text differs from the old after `strip()`; the method returns whether it edited; title and labels are untouched |
| PrTranslation.TranslatePrBody | src/actions/translate_prs.py:147-151 | `main` translates the description's own original, in its detected language, against the current title: the service is asked for the title and then for that original, once per target |
| PrTranslation.PrBodyIdempotent | src/actions/translate_prs.py:89-97 | when the description has no START marker outside its block, its original has no END marker and no answer holds one, a second run with the same answers on the description the first run wrote makes no edit |
| PrTranslation.TranslatePrComment | src/actions/translate_prs.py:99-112 | an empty comment returns false with no service call and no edit; otherwise the comment is edited at most once, exactly when its stripped text changes, and the method returns whether it edited |
| PrTranslation.PrCommentIdempotent | src/actions/translate_prs.py:99-112 | when the original has neither a START nor an END marker and no answer holds the END marker, a second run on the comment just written makes no edit |
| PrTranslation.ShouldTranslate | src/actions/translate_prs.py:114-120 | translation is wanted iff some label is `need translation` ignoring case; the second test adds nothing |
| PrTranslation.LabelsAfterMarks | src/actions/translate_prs.py:163-166 | after a translation the `translated` label is present |
| PrTranslation.LabelsAfterIdempotent | src/actions/translate_prs.py:163-166 | labelling again adds no second `translated` label |
| PrTranslation.MarkTranslated | src/actions/translate_prs.py:163-166 | `translated` is added only after a translation and only when no label equals it ignoring case; nothing else changes |
| Services.PullRequest.Edit | src/actions/translate_prs.py:95 | an edit replaces the description, is logged, and leaves title and labels alone |
| Services.PullRequest.AddToLabels | src/actions/translate_prs.py:166 | adding a label appends it and changes nothing else |
| Services.Translator.Translate | src/actions/translate_prs.py:84 | a service call returns the service's answer and is logged |
| Letters.Lower | src/actions/translate_prs.py:115 | lower-casing maps each character and keeps the length |
| Letters.Capitalize | src/actions/translate_prs.py:72 | capitalising upper-cases the first character and lower-cases the rest |
| Strings.StripIdempotent | src/actions/translate_prs.py:34 | stripping twice is stripping once |
| Strings.Strip | src/actions/translate_prs.py:34 | `strip()` returns a text without leading or trailing white space, no longer than its input |
| Strings.Find | src/actions/translate_prs.py:42 | `find` returns the first occurrence, and returns one iff the pattern occurs |
| CommentTranslation.GetOriginalContent | src/actions/translate_comments.py:24-28 | the stored original is always stripped |
| Strings.Split | src/actions/translate_comments.py:26 | `split` with no `maxsplit`: joining the pieces gives the text back, there are two or more pieces iff the separator occurs, and no piece holds it |
| CommentTranslation.ReadAroundMarker | src/actions/translate_comments.py:24-28 | for a text with one marker, whatever characters surround it, the stripped text after the marker is read back as the original, and the stripped text before it as what precedes it |
| CommentTranslation.ReadBetweenMarkers | src/actions/translate_comments.py:25-27 | with a second marker, the original is only the text between the first and the second marker |
| CommentTranslation.TextBeforeMarker | src/actions/translate_comments.py:74 | the text before the marker is stripped |
| CommentTranslation.HasNonAscii | src/actions/translate_comments.py:31 | true iff some character's code point exceeds 128 |
| CommentTranslation.DetectLanguage | src/actions/translate_comments.py:30-33 | the detected language is `"ja"` or `"en"` and nothing else |
| CommentTranslation.DetectAppend | src/actions/translate_comments.py:30-33 | a concatenation is `"ja"` iff one of its parts is |
| CommentTranslation.Targets | src/actions/translate_comments.py:47 | the targets never include the source language and hold no language twice |
| CommentTranslation.CommentTranslationsShape | src/actions/translate_comments.py:45-54 | the keys are exactly the targets with a non-empty answer, in target order; each maps to its answer, and the source language is never a key |
| CommentTranslation.TranslateContent | src/actions/translate_comments.py:45-54 | the loop builds that dict and asks the service once per target, in order |
| CommentTranslation.DetailsParts | src/actions/translate_comments.py:37-41 | one `<details>` block per dict entry, in dict order |
| CommentTranslation.FormatTranslations | src/actions/translate_comments.py:35-43 | the looping formatter joins the blocks with blank lines and appends the marker and the original |
| CommentTranslation.JoinedBlocksNoMarker | src/actions/translate_comments.py:37-43 | the joined blocks hold no marker when no translation and no language name does |
| CommentTranslation.FormatCommentParts | src/actions/translate_comments.py:35-43 | a formatted comment holds the marker; reading it back yields the stripped original after the marker and the joined blocks before it |
| CommentTranslation.FormatCommentReadBack | src/actions/translate_comments.py:35-43 | for a stripped original, reading the formatted comment gives the original back exactly |
| CommentTranslation.FormatCommentStripped | src/actions/translate_comments.py:43 | a formatted comment with translations and a non-empty stripped original is already stripped |
| Strings.StripIgnoresSurroundingSpace | src/actions/translate_comments.py:61-62 | white space around a text does not change its stripped form |
| Strings.CrlfToLfStrip | src/actions/translate_comments.py:61-62 | replacing `\r\n` by `\n` commutes with stripping |
| Strings.CrlfToLfUndoesLfToCrlf | src/actions/translate_comments.py:61 | replacing `\r\n` by `\n` undoes writing every `\n` as `\r\n` |
| Strings.CrlfToLf | src/actions/translate_comments.py:61-62 | `replace('\r\n', '\n')` never lengthens the text |
| CommentTranslation.ShouldRetranslateLaws | src/actions/translate_comments.py:56-64 | `should_retranslate` is false on equal texts, symmetric, and blind to surrounding white space |
| CommentTranslation.ShouldRetranslateIgnoresCrlf | src/actions/translate_comments.py:56-64 | writing a text's line ends as `\r\n` does not change the decision |
| CommentTranslation.ShouldRetranslate | src/actions/translate_comments.py:56-64 | the test fires only when the two texts differ after `strip()` |
| CommentTranslation.TranslateComment | src/actions/translate_comments.py:66-92 | an empty comment, or a marked comment whose two sides agree, returns false with no service call and no edit; otherwise the comment is edited exactly once iff some translation came back, with no compare-before-write, and the method returns whether it edited |
| CommentTranslation.CommentSourceNoMarker | src/actions/translate_comments.py:71-80 | the text chosen for translation never holds the marker |
| CommentTranslation.CommentRoundTrip | src/actions/translate_comments.py:84-92 | when no answer of the service holds the marker, the rewritten comment's stored original is the source the run translated |
| CommentTranslation.SecondRunTranslatesBlocks | src/actions/translate_comments.py:72-82 | a second run on a rewritten comment takes the rendered translations before the marker as its source |
| CommentTranslation.BlocksDifferFromOriginal | src/actions/translate_comments.py:73-76 | those rendered translations never equal an original that does not start with `<`, so the skip rule does not fire |
| Services.Comment.Edit | src/actions/translate_comments.py:89 | an edit replaces the comment body and is logged |
| MarkdownSync.Name | src/hooks/post_commit.py:49 | `Path.name` is the last path component: it ends the path and holds no `/` |
| MarkdownSync.Suffix | src/hooks/post_commit.py:48 | `Path.suffix` is empty, or a final `.x` part of the name that is shorter than the name |
| MarkdownSync.WithSuffix | src/hooks/post_commit.py:41 | `with_suffix` fails iff the new suffix holds `/`, is non-empty without a leading dot, is only a dot, or the name is empty; otherwise the name's suffix is cut off the path and the new one appended |
| MarkdownSync.TranslatedPath | src/hooks/post_commit.py:57 | the translated path exists iff the name is non-empty and the language holds no `/`; it is the path without its suffix, then `.<lang>.md` |
| MarkdownSync.SuffixOfMd | src/hooks/post_commit.py:48 | a name longer than `.md` that ends with it has suffix `.md` |
| MarkdownSync.IsOriginalMarkdown | src/hooks/post_commit.py:45-49 | an original's name ends in `.md` after at least one other character |
| MarkdownSync.TranslatedPathOfMarkdown | src/hooks/post_commit.py:41 | for a `.md` path, `with_suffix('.<lang>.md')` replaces the final `.md` by `.<lang>.md`, so `README.md` becomes `README.<lang>.md` |
| MarkdownSync.TranslatedPathInjective | src/hooks/post_commit.py:41 | different originals or languages never share a translated path |
| MarkdownSync.DistinctPaths | src/hooks/post_commit.py:56-57 | the languages of one original write to different files |
| MarkdownSync.DerivedNotOriginal | src/hooks/post_commit.py:45-49 | the translated path of an original for `ja` or `fr` is not itself an original, so generated files are never fed back in |
| MarkdownSync.SyncLoopAsks | src/hooks/post_commit.py:56-70 | with distinct languages, the service is asked for a language iff its translated file was missing or had different lines before the loop, whatever the other languages wrote |
| MarkdownSync.NextRunNeeds | src/hooks/post_commit.py:56-70 | when a run wrote the service's answer for a language, the next run over the files it left asks for that language again iff the answer's lines differ from the original's |
| MarkdownSync.NeedsTranslation | src/hooks/post_commit.py:59-67 | a missing translation is always needed, and a translation equal to the content never is |
| MarkdownSync.SplitLinesIgnoresCrlf | src/hooks/post_commit.py:63-64 | `splitlines` gives the same lines whether line ends are `\n` or `\r\n`, so those differences never trigger a translation |
| Strings.SplitLinesNoBreaks | src/hooks/post_commit.py:63-64 | no line from `splitlines` holds a line break |
| Strings.SplitLines | src/hooks/post_commit.py:63-64 | `splitlines()` gives no line exactly for the empty text, and never more lines than characters |
| MarkdownSync.SyncTranslations | src/hooks/post_commit.py:51-78 | the loop's files, writes and service calls are those of the specified sync of the original's content over the languages |
| MarkdownSync.SyncStepShape | src/hooks/post_commit.py:56-75 | each language asks the service at most once and writes at most once, to its translated path, with the service's answer |
| MarkdownSync.SyncLoopRequests | src/hooks/post_commit.py:56-75 | every call translates the original's content, and the languages asked for are the targets in order with some left out |
| MarkdownSync.SyncLoopAsksOnce | src/hooks/post_commit.py:56-75 | no more calls than languages, each for one of them, and with distinct languages no language is asked for twice |
| MarkdownSync.SyncLoopWrites | src/hooks/post_commit.py:69-75 | there are no more writes than service calls, and every write goes to the translated path of one of the languages |
| MarkdownSync.SyncLoopKeeps | src/hooks/post_commit.py:56-75 | a file that is no language's translated path is neither created, changed nor removed |
| MarkdownSync.SyncLoopNoFail | src/hooks/post_commit.py:57 | for a `.md` original, `with_suffix` never raises, so the loop runs over every language |
| MarkdownSync.SyncLoopFailedStays | src/hooks/post_commit.py:77-78 | once an exception ends the loop, the remaining languages change nothing |
| MarkdownSync.SyncLoopOutcome | src/hooks/post_commit.py:56-75 | per language: when a translation is needed and the answer is non-empty, the translated file holds the answer; otherwise it stays as it was |
| MarkdownSync.SyncOfOriginal | src/hooks/post_commit.py:51-78 | syncing an original with `ja` and `fr` does not fail and leaves the original untouched; each translated file ends as `SyncLoopOutcome` says |
| Services.FileStore.Write | src/hooks/post_commit.py:42 | writing a file sets its content and logs the write |

## Left out

- `src/utils/translation.py` is not part of this model. The translation service is a
  function from text and language to `Option<String>`, and `None` stands for its caught
  exception. Within one run, the same request is assumed to get the same answer.
- `main()` of each script is left out: environment variables, PyGithub object
  fetching, `int` parsing and the catch-all `except`. What remains is the PR label rule
  (`PrTranslation.MarkTranslated`) and the wiring of the PR description
  (`PrTranslation.TranslatePrBody`).
- The loops in the PR script's `main` that translate every issue comment and review
  comment (`src/actions/translate_prs.py:153-162`) are not modelled as a loop. Each
  comment is `PrTranslation.TranslatePrComment`; the flag they set feeds
  `PrTranslation.MarkTranslated`.
- The issue-comment script's label rule in `main` is left out with the rest of that
  `main`. The PR's `if translations:` test is always true, because the dict always
  holds the source entry; it is modelled as written.
- `pr.body` being `None` is not modelled: bodies are strings, and the empty string is
  handled where the source handles it.
- The post-commit hook's I/O is left out: the `rglob` walk, the UTF-8 and UTF-8-BOM
  reads, `write_text` failures and the import-time directory check. Files are a map
  from normalised POSIX paths (no trailing `/`) to contents, and `exists()` is
  membership in that map, so directories are not modelled. Applying the hook's `main`
  filter (`src/hooks/post_commit.py:84-85`) to every file is stated only through
  `MarkdownSync.DerivedNotOriginal` and `MarkdownSync.SyncOfOriginal`, one original at a
  time.
- `difflib.unified_diff` is modelled only through its emptiness, which is equality of
  the two `splitlines()` sequences (`MarkdownSync.LinesDiffer`).
- `Letters.Lower`: lower-cases only ASCII letters, where Python's `str.lower` covers all
  of Unicode. It is applied only to label names compared with ASCII constants, and to the
  tail of a capitalised language code.
- `Letters.Capitalize`: upper-cases only ASCII letters. It is used only for language
  codes outside the name tables.
- `src/actions/translate_issues.py`, `src/hooks/install_hooks.py`, `load_env_vars.py`
  and `test_translation.py` are not part of this model: they are plain glue around the
  service and the host, with no logic of their own.
