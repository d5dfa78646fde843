# CSS snippet store: a Dafny model of its core

The CSS snippet store is a plugin for a note-taking host application. It lets a user
browse a remote catalog of CSS snippets, search it, and install or remove snippets as
`.css` files in the vault's configuration folder. Most of the plugin is user-interface
glue. This project models the parts of `main.ts` whose behaviour can be stated:

- the **catalog search** of the browser: which snippets a search term lists, in which
  order, and which status message appears when none is listed (`catalog.dfy`, with the
  string helpers in `text.dfy`);
- the **snippet store**: `install`, `uninstall` and `checkSnippetExists` over the vault's
  storage. A snippet counts as installed exactly when something is stored at
  `<configDir>/snippets/<id>.css`, normally its file, though a folder there counts
  too (`snippet_store.dfy`). The host vault is a class whose
  storage is a map from path to entry, either a file with its contents or a folder
  (`storage.dfy`);
- the **network workflows**: loading the catalog at start-up, and the Install button,
  which downloads a stylesheet and installs it. The reachability probe's answer and
  the fetch results are inputs (`workflow.dfy`);
- the **README image rewrite**: every markdown image `![alt](./rest)` becomes
  `![alt](https://raw.githubusercontent.com/<repo>/refs/heads/main/<folder>/rest)`
  (`readme.dfy`).

Pure code is modelled as functions with lemmas. Code that changes state is modelled
as methods. The plugin's catalog field and the vault's storage are fields of classes.
Each method's postcondition ties the new state to a specification function, and the
lemmas about these functions state what the source promises:
- no overwrite;
- delete only if present;
- other snippets are untouched;
- install followed by uninstall is a round trip.

`scenarios.dfy` holds client code that relies on the contracts alone: a catalog
snippet is installed and removed again, the plugin starts offline, and a download fails
with a 404.

Two details of `main.ts` shape the model:
- The browser shows "No Internet connection" whenever the catalog is empty, whatever
  the reason (main.ts:221-226). It does not track why the start-up load failed
  (`Catalog.Render`).
- The reachability probe sets up an abort timer but never passes it to the request
  (main.ts:324-331). The probe's answer is an input here, so no time-out semantics are
  modelled.

## Model

| member | source | states |
|---|---|---|
| Text.LowerChar | main.ts:212 | Lower-casing maps A-Z to a-z, leaves every other character as it is, and never yields an upper-case letter |
| Text.Lower | main.ts:212-218 | Lower-casing a string keeps its length. Its contents are stated by Text.LowerAt |
| Text.LowerAt | main.ts:212-218 | Every character of a lower-cased string is the input's character at that position, lower-cased |
| Text.Contains | main.ts:216-218 | `includes` on strings: the empty needle is contained in every string, every string contains itself, and a contained needle is no longer than the text. Containment is defined as an occurrence at some position |
| Text.LowerIdempotent | main.ts:212-218 | Lower-casing an already lower-cased string changes nothing |
| Catalog.FilterBy | main.ts:214 | `filter` on an array: the result is no longer than the input, holds only elements that pass the test, and holds every element that passes it |
| Catalog.KeptPositions | main.ts:214 | Reference definition of `filter` by positions: strictly increasing indices, containing an index exactly when the element there passes the test |
| Catalog.FilterByFollowsPositions | main.ts:214 | Filtering any suffix gives that suffix read at the kept positions, in order |
| Catalog.FilterByKeepingAll | main.ts:214-215 | A test that every element passes keeps the whole sequence, in order |
| Catalog.FilterByAgreeing | main.ts:214-219 | Two tests that agree on every element give the same result |
| Catalog.Matches | main.ts:214-219 | The filter callback. An empty term matches every snippet, and a term that lower-cases to a snippet's lower-cased name, author or description matches that snippet |
| Catalog.Filter | main.ts:214-219 | The search result is no longer than the catalog. Every listed snippet is in the catalog and matches the term, and every matching catalog snippet is listed |
| Catalog.FilterIsMatchingSubsequence | main.ts:214-219 | The search result is the catalog read at an increasing list of exactly the matching positions. It is an order-preserving subsequence holding exactly the matching snippets |
| Catalog.EmptyFilterKeepsAll | main.ts:214-215 | An empty search term lists the whole catalog, in the same order |
| Catalog.FilterIgnoresCase | main.ts:212-218 | Two terms that lower-case alike list exactly the same snippets |
| Catalog.FilterOfLoweredTerm | main.ts:212 | Searching for a term and for its lower-cased form gives the same list |
| Catalog.Render | main.ts:212-227 | Cards are shown exactly when some snippet matches, and they show the search result. "No Internet connection" is shown exactly when the catalog is empty. "No snippets match your search." is shown exactly when the catalog is non-empty and nothing matches |
| SnippetStore.SnippetPath | main.ts:100-102 | A snippet's file path is `<configDir>/snippets/`, then the id, then `.css`, so the file lies directly in that folder when the id has no `/`. It is never the folder itself |
| SnippetStore.SnippetsFolder | main.ts:100 | The snippets folder path is the configuration folder's path, then `/`, then more, so it lies inside that folder. The same derivation is used at main.ts:128 and main.ts:148 |
| SnippetStore.IsInstalled | main.ts:151 | What `checkSnippetExists` reports: something, file or folder, is stored at the snippet's derived path. It has no contract of its own; SnippetStore.CheckSnippetExists and the install and uninstall lemmas are stated with it |
| SnippetStore.SnippetPathInjective | main.ts:128-130 | Two ids with the same file path are equal, so each id owns at most one file |
| SnippetStore.InstallEffect | main.ts:104-119 | "already exists" is reported exactly when the snippet's path is occupied, and then its entry is unchanged. Otherwise the path holds exactly the code. Afterwards the snippets folder exists (an existing one is kept as it was), the snippet is installed, and nothing else changes |
| SnippetStore.UninstallEffect | main.ts:132-139 | "deleted" is reported exactly when the snippet's path was occupied. The new storage is the old storage without that path and nothing else, so the snippet is not installed afterwards |
| SnippetStore.Install | main.ts:97-124 | `install` checks for the folder, makes it when missing, checks for the file, and creates the file. The new storage and the outcome are those of InstallEffect |
| SnippetStore.Uninstall | main.ts:126-144 | `uninstall` removes the file only when it exists. The new storage and the outcome are those of UninstallEffect |
| SnippetStore.CheckSnippetExists | main.ts:146-152 | `checkSnippetExists(id)` is true exactly when something is stored at the snippet's derived path |
| SnippetStore.InstallTwiceKeepsFirst | main.ts:110-117 | A second install of an id with other code reports "already exists", changes nothing and keeps the first code |
| SnippetStore.InstallThenUninstall | main.ts:106-135 | A fresh install reports installed and the snippet then exists. Uninstalling reports deleted, the snippet no longer exists, and storage is back to what it was, apart from the snippets folder the install may have created |
| SnippetStore.UninstallTwiceChangesNothing | main.ts:134-139 | A second uninstall reports "does not exist" and changes nothing, so two uninstalls never delete more than one file |
| SnippetStore.InstallLeavesOtherSnippets | main.ts:100-117 | Installing one id neither installs nor removes another id's file, and does not change its contents |
| SnippetStore.UninstallLeavesOtherSnippets | main.ts:128-135 | Uninstalling one id neither installs nor removes another id's file, and does not change its contents |
| Catalog.RawBase | main.ts:414 | A snippet's raw-content folder address starts with `https://raw.githubusercontent.com/`, ends in `/`, and is 52 characters longer than the repository and folder names together |
| Workflow.AssetUrl | main.ts:179 | The Install button's own URL template gives the file `snippet.css` in the snippet's raw-content folder. The two separate templates at main.ts:179 and main.ts:414 agree, so the stylesheet comes from the folder that README images are resolved against |
| Workflow.Admit | main.ts:180-192 | A download is used exactly when the probe reports online, the response is ok and its body could be read, and then its body is used. Offline gives the no-Internet notice. A response that is not ok gives its status text. Every other stop is an error |
| Workflow.CssSnippetStore.constructor | main.ts:14 | The catalog starts empty |
| Workflow.CssSnippetStore.OnLoad | main.ts:18-44 | The catalog is replaced by the parsed body only when the download is admitted, and otherwise keeps its previous value. A notice is shown exactly when the download is not admitted |
| Workflow.InstallClick | main.ts:178-197 | When the asset download is not admitted, storage is unchanged and the click ends with the gate's notice. When it is admitted, the click installs the body, with the outcome and new storage of InstallEffect |
| Readme.SpanWithout | main.ts:417 | The greedy run of a negated character class stops exactly at the first occurrence of the excluded character |
| Readme.MatchImage | main.ts:417 | A match at the start of the text is a prefix `![alt](./rest)` where alt has no `]` and rest is non-empty with no `)` |
| Readme.SpanWithoutStopsAtFirst | main.ts:417 | The run of a negated character class over `p`, the excluded character and more text is exactly `p` when `p` lacks that character |
| Readme.MatchImageRejects | main.ts:417 | Where the target after the alt text is not `./` followed by at least one character before `)`, the pattern does not match |
| Readme.MatchImageAccepts | main.ts:417 | Where `(./rest)` follows the alt text, with rest non-empty and free of `)`, the pattern matches with that alt text and rest |
| Readme.MatchImageAtImage | main.ts:417 | At a well-formed image, the pattern matches exactly when the target is `./` followed by at least one character. It then yields the alt text and the target without `./` |
| Readme.RewriteRelativeMediaPaths | main.ts:413-420 | The global replacement, scanning left to right. Its contract states only that the rewrite never shortens the text. Its behaviour is stated by the `Readme.Rewrite*` lemmas below |
| Readme.MatchImageRejectsInAlt | main.ts:417 | A match cannot start inside the alternative text of an image whose target is not `./`-relative: an attempt from a `!` there takes the image's own `]` as the end of its alternative text and then fails on the same target |
| Readme.NoMatchInAltBeforeOtherTarget | main.ts:417 | The same, for every alternative text without `]`. This covers every position from the image's `!` up to its `]` |
| Readme.RewriteCopiesUnmatched | main.ts:417-420 | A character at which the pattern does not match is copied, and the scan goes on at the next character |
| Readme.RewriteCopiesAltText | main.ts:417-420 | Text without `]` at none of whose positions a match can start is copied unchanged, and the text after it is rewritten on its own |
| Readme.RewriteCopiesCharacter | main.ts:417-420 | A character other than `!` is copied, and the scan goes on at the next character |
| Readme.RewriteCopiesPlainText | main.ts:417-420 | Text containing no `!` is copied unchanged, and the rest is rewritten on its own |
| Readme.RewriteResolvesRelativeImage | main.ts:413-420 | `![alt](./rest)` becomes `![alt](<raw-base>rest)`, where raw-base is `https://raw.githubusercontent.com/<repo>/refs/heads/main/<folder>/`. What follows is rewritten on its own |
| Readme.RewriteKeepsOtherImage | main.ts:417-420 | An image whose target is not `./`-relative, and holds no `!`, is left unchanged, and what follows is rewritten on its own. The alternative text may hold `!`. A `!` in the target can start a match of its own: `![a](x![c](./d)` is not matched at its first character, but `![c](./d)` inside it is rewritten |
| Readme.RewriteWithoutMatches | main.ts:417 | Content in which the pattern matches at no position is returned as it is |

## Left out

- The DOM and the user interface:
  - injecting the Browse button through a mutation observer, and `onunload`
    (main.ts:46-88);
  - creating the cards, buttons and event listeners, and refreshing a card after an
    action (main.ts:154-176, 229-274);
  - the modal's `onOpen` and `onClose`, including the `trim()` of the search box
    (main.ts:276-312). `Catalog.Render` takes the search term as given;
  - the README modal's fetch and markdown rendering, and lazy image loading
    (main.ts:240-269, 339-411).
  All of this is presentation through host APIs that are not part of this model.
- `fetchWithTimeout` and `isOnline` (main.ts:315-337). They rely on timers, promise races
  and the network. Their results are inputs: a boolean for the probe, and a function
  from URL to fetch result for the download. Because the fetch is a function, the model
  cannot say whether a request was sent. It only says that the result is not used when
  the probe reports offline.
- Parsing the catalog's JSON (main.ts:35). The parsed catalog is part of the fetch
  result. A body that fails to parse is a body whose reading threw.
- The catch branches of `install` and `uninstall` (main.ts:120-123, 140-143). The host's
  storage calls never fail in the model.
- The host's behaviour in unusual storage states. The model assumes that:
  - `adapter.remove` deletes whatever entry is at the path, even a folder;
  - `vault.create` stores the file even when the id contains `/`;
  - `vault.create` stores the file even when the snippets folder's path holds a file.
- Concurrent clicks and the interleaving of asynchronous operations. Each action is
  atomic.
- The exact wording of notices and console logging. Notices are datatype values.
  Only the two status messages of the browser are kept as text.
- Text.LowerChar: `toLowerCase` is Unicode-aware, but only the ASCII letters A-Z are
  lower-cased here.
