# Artifact downloader: the extraction and naming core

This project models the core of `background.js` of the Claude artifacts
downloader, a browser extension. The extension collects the artifacts of a chat
conversation into a zip. An artifact is a block written as
`<antArtifact title="…" language="…">…</antArtifact>` inside an assistant
message. The model covers:

- **`extractArtifacts`** (module `Extraction`). The global regular expression
  `<antArtifact[^>]*>([\s\S]*?)<\/antArtifact>` is given a meaning
  (`IsMatch`) and run by a scanner (`NextMatch`). The scanner is proved to
  find the leftmost match, as the regular expression engine does. The `exec`
  loop becomes the method `ExtractArtifacts`. It is proved to return one
  artifact per match, in document order. Each artifact has the title and
  language looked up in the whole matched text, with the defaults `Untitled`
  and `txt`, and the content between the tags, trimmed.
- **`getUniqueFileName`, `inferDirectoryStructure` and `getFileExtension`**
  (module `Naming`):
  - the title sanitiser;
  - the 19-row case-insensitive extension table with its `.txt` fallback;
  - the directory-mode name layout;
  - the retry loop that appends `_*`, `_**`, … until the name is free.

  The loop is the method `GetUniqueFileName` over the class `NameSet` (the
  `usedNames` set it extends in place). It is proved to return the first free
  candidate (`UniqueName`), a name never used before.
- **The child ordering of `processMessage`** (module `Conversation`). The
  children of a message are the messages whose `parent_message_uuid` is its
  `uuid`. They are sorted by `created_at` with a stable sort, and the sort is
  proved sorted, a permutation, and order-preserving among equal times.
- **`processMessage`** (module `Traversal`). The recursive walk is a pair of
  mutually recursive methods: `ProcessMessage`, and `ProcessChildren` for the
  `forEach` over the children. The zip is the class `Archive`. Per message,
  `AddMessageArtifacts` and `AddArtifactFiles` model the `forEach` over the
  artifacts. The walk's effect is the function pair `Walk`/`WalkAll`. That
  pair is proved equal to a fold, one step per visited message, over the
  pre-order list of the messages the walk reaches. About that fold the model
  proves:
  - the artifact count grows by the number of artifacts visited;
  - every artifact lands in a new file under a new name;
  - no earlier file is overwritten;
  - below depth 100 a message's artifacts are still added, but its children
    are not visited;
  - the walk never leaves the conversation;
  - a message that is its own parent, listed once, and the only message
    listed under its `uuid`, is visited exactly once per level down to the
    limit.

Module `Text` holds the string operations the source takes from JavaScript:
substring search, `trim`, ASCII `toLowerCase`, `split` and `join` on one
character, and the decimal rendering of an integer in a template literal.
Module `Maybe` holds `Option`.

## Behaviour of `background.js` worth noting

- The tag the regular expression looks for is `antArtifact`.
- In directory mode the first candidate is
  `inferDirectoryStructure(baseName, extension)`, with no message index. Only
  the retries carry the `{index+1}_` prefix.
- The sanitiser replaces `/` in every mode. The splitting branch of
  `inferDirectoryStructure` is therefore never reached from
  `getUniqueFileName`. `Naming.SanitisedHasNoSlash` and
  `Naming.DirectoryModeCandidates` state this, and the splitting branch is
  still modelled and proved on its own.
- Nothing in `background.js` calls `processMessage`. The download listener
  zips artifacts stored beforehand. The model takes `processMessage` as the
  entry point it is written to be.

## Model

| member | source | states |
|---|---|---|
| Extraction.ExtractArtifacts | background.js:124-144 | The `exec` loop returns exactly `ArtifactsIn(text)`: the artifacts of the successive leftmost matches, each search resuming at the end of the previous match. |
| Extraction.ArtifactsMatchSpans | background.js:129-141 | There is one artifact per match the loop visits, and the `i`-th artifact is built from the `i`-th match. |
| Extraction.NextMatch | background.js:125-129 | A match the scanner returns lies inside the text, has its parts in order, and starts at or after `lastIndex`. |
| Extraction.NextMatchLeftmost | background.js:125-129 | The scanner returns the leftmost match of the regular expression at or after `lastIndex`. It returns nothing exactly when no match starts there or later. |
| Extraction.MatchUnique | background.js:125 | `[^>]*>` and the lazy `[\s\S]*?` leave no choice: a match is determined by where it starts. |
| Extraction.Spans | background.js:129 | Every match the loop visits is well formed and starts at or after the starting `lastIndex`. |
| Extraction.SpansLeftmost | background.js:129 | Each `exec` finds the leftmost match at or after the end of the previous match. |
| Extraction.SpansOrdered | background.js:129 | The visited matches do not overlap: each starts at or after the end of the one before. |
| Extraction.SpansExhaustive | background.js:129 | The loop stops only when no match starts at or after the end of the last match. |
| Extraction.SpansComplete | background.js:129 | Every match in the text is either visited or starts strictly inside a visited match. |
| Extraction.ValueAt | background.js:133-134 | `[^"]*` takes the longest run of characters other than `"`: it stops at a `"` or at the end of the text. |
| Extraction.AttrValue | background.js:133-134 | `fullTag.match(/key([^"]*)/)` gives the value after the first occurrence of the key, and nothing exactly when the key does not occur. |
| Extraction.AttrOr | background.js:137-138 | `titleMatch ? titleMatch[1] : default`: the attribute's value when the key occurs, otherwise the default. Specified by `Extraction.AttrValue`. |
| Extraction.ArtifactOf | background.js:130-140 | The artifact of one match: the title (default `Untitled`) and language (default `txt`) looked up in the whole matched text, and the captured content trimmed. Specified through `Extraction.AttrValue` and `Text.Trim`; `Extraction.ArtifactsMatchSpans` ties it to the loop. |
| Text.Trim | background.js:139 | `trim` returns the middle of the string. Everything cut off is whitespace, and the result neither starts nor ends with whitespace. |
| Text.IndexOf | background.js:125 | Substring search returns the first occurrence at or after the start, or nothing when there is none. |
| Text.OccursAtSlice | background.js:125 | Comparing character by character at `k` is comparing the slice of the text at `k` with the pattern, so `IndexOf` finds the pattern as a substring. |
| Text.IntToString | background.js:158 | `${messageIndex + 1}` renders decimal digits, with a `-` exactly for a negative number. |
| Text.NatToStringRoundTrip | background.js:158 | The decimal rendering reads back as the number it renders. |
| Text.IntToStringRoundTrip | background.js:158 | The rendering of an integer reads back as that integer: the digits after an optional `-` render its magnitude. |
| Text.SplitJoin | background.js:181-184 | `split("/")` followed by `join("/")` gives back the base name. |
| Text.SplitPieces | background.js:181 | No piece of `split("/")` holds a `/`. |
| Text.SplitSingle | background.js:181-182 | `parts.length > 1` exactly when the base name holds a `/`. |
| Text.JoinLast | background.js:183-184 | Joining all parts is joining all but the last (what `pop` leaves), then `/`, then the popped part. |
| Naming.SanitiseTitle | background.js:153 | The sanitised title holds only `[A-Za-z0-9_.-]` and is no longer than the title. |
| Naming.SanitiseFixedPoint | background.js:153 | The sanitiser leaves a title unchanged exactly when it holds only kept characters. |
| Naming.SanitiseIdempotent | background.js:153 | Sanitising twice is sanitising once. |
| Naming.SanitiseKeptPrefix | background.js:153 | A prefix of kept characters passes through unchanged. |
| Naming.SanitiseRun | background.js:153 | A maximal run of characters that are not kept becomes a single `_`. |
| Naming.SanitisedHasNoSlash | background.js:153 | A sanitised title never holds a `/`. |
| Naming.LookupFromFinds | background.js:195-216 | The table yields an extension exactly when one of its rows lists the key, and then it yields that row's extension. |
| Naming.TableExtensionShape | background.js:195-215 | Every extension in the table is `.` followed by kept characters, and none is `.txt`. |
| Naming.FileExtensionLookup | background.js:216 | The extension is `.txt` exactly when the table does not list the lower-cased language, and otherwise the table's entry. |
| Naming.FileExtensionShape | background.js:194-217 | Every extension is `.` followed by at least one kept character. |
| Naming.FileExtensionIgnoresCase | background.js:216 | The language's case does not matter. |
| Naming.FileExtensionExamples | background.js:194-217 | `Python` and `python` map to `.py`, and `Fortran` maps to `.txt`. |
| Naming.FileExtension | background.js:194-217 | `getFileExtension`: the table's entry for the lower-cased language, or `.txt`. Specified by `Naming.FileExtensionLookup`, `Naming.FileExtensionShape` and `Naming.FileExtensionIgnoresCase`. |
| Naming.InferDirectoryStructure | background.js:175-192 | The length of the result is the sum of the lengths of its parts. Without a `/` the result is `{index+1}_` (when an index is given), then base, suffix and extension. |
| Naming.InferDirectoryWithoutIndex | background.js:181-191 | Without a message index the result is base, suffix and extension, whether or not the base holds a `/`. |
| Naming.InferDirectoryWithIndex | background.js:181-187 | With an index and a `/`, the result is `{directory}/{index+1}_{last}{suffix}{ext}`: the directory is everything before the last `/`. |
| Naming.CandidateLonger | background.js:162-168 | Each retry is longer than the one before, so the retry loop ends. |
| Naming.Candidate | background.js:156-166 | The `k`-th name the loop tries: the first try for `k = 0`, the retry with suffix `_{"*"×k}` otherwise, in the flat or the directory layout. Specified by `Naming.CandidateLonger`, `Naming.UniqueNameFlat` and `Naming.DirectoryModeCandidates`. |
| Naming.FreeFrom | background.js:159-168 | The retry loop stops at the first candidate not in use. Every candidate before it is in use. |
| Naming.UniqueName | background.js:146-173 | The chosen name is not among the names already used. |
| Naming.UniqueNameFlat | background.js:156-168 | Without directory mode the name is `{index+1}_{base}{ext}` when free. Otherwise it is `{index+1}_{base}_{"*"×k}{ext}` for the least `k` whose name is free. |
| Naming.DirectoryModeCandidates | background.js:156-166 | In directory mode the first try is `{base}{ext}`, with no number. The `k`-th retry is `{index+1}_{base}_{"*"×k}{ext}`. |
| Naming.DirectoryCandidatesWithoutSlash | background.js:189-191 | A base name without `/` gets the unsplit layout in directory mode. |
| Naming.NameSet.Add | background.js:171 | `usedNames.add` adds exactly the one name. |
| Naming.GetUniqueFileName | background.js:146-173 | Returns a name not used before: the first free candidate. Afterwards `usedNames` holds the old names plus that name, and no other. |
| Conversation.ChildMessagesFilter | background.js:102-104 | The filter keeps exactly the messages whose parent is `uuid`, each as often as the conversation lists it. |
| Conversation.ChildMessages | background.js:102-104 | The `filter` on `parent_message_uuid`: the children of `uuid`, each as often as listed, in listed order. Specified by `Conversation.ChildMessagesFilter` (which and how often) and `Conversation.ChildMessagesInOrder` (order). |
| Conversation.ChildMessagesInOrder | background.js:102-104 | The filter keeps the listed order: its result is a subsequence of `chat_messages`. With `Conversation.ChildMessagesFilter` this determines the result. |
| Conversation.FilterKeepsOrder | background.js:102-104 | The children created at a time `t` are, in order, the children among the messages created at `t`: the filter keeps the listed order within each creation time. |
| Conversation.Insert | background.js:108 | Inserting adds exactly one element, and the result is the old sequence plus `x` as a multiset. |
| Conversation.InsertSorted | background.js:108 | Inserting into a sorted sequence keeps it sorted. |
| Conversation.SortByCreatedSorted | background.js:107-108 | The sort yields ascending `created_at` order and is a permutation of its input. |
| Conversation.SortStable | background.js:107-108 | The sort is stable: messages created at the same time keep their relative order. |
| Conversation.SortByCreated | background.js:107-108 | The `sort` by `created_at`, as a stable insertion sort. Specified by `Conversation.SortByCreatedSorted` and `Conversation.SortStable`. |
| Conversation.ChildrenOfSorted | background.js:101-108 | The visited children are sorted by creation time. They are exactly the messages whose parent is `uuid`, each as often as listed. |
| Conversation.ChildrenOf | background.js:101-108 | The children a message's walk visits, in the order it visits them. Specified by `Conversation.ChildrenOfSorted`, `Conversation.ChildrenListed` and `Conversation.ChildrenStable`. |
| Conversation.ChildrenListed | background.js:101-104 | Every visited child is a message of the conversation whose parent link names `uuid`. |
| Conversation.ChildrenStable | background.js:101-108 | Among children created at the same time, the visiting order is the order in which `chat_messages` lists them. |
| Traversal.Archive.File | background.js:85 | `zip.file(name, content)` stores the content under the name and changes nothing else. |
| Traversal.AddArtifact | background.js:77-85 | The effect of one artifact on the names, the zip and the count. Specified by `Traversal.AddArtifactExtends`; `Traversal.AddArtifactFile` implements it. |
| Traversal.AddArtifacts | background.js:76-87 | The effect of a message's artifacts, one after another in order. Specified by `Traversal.AddArtifactsExtends`; `Traversal.AddArtifactFiles` implements it. |
| Traversal.VisitNode | background.js:73-91 | The effect of visiting one message: its artifacts when it is an assistant message with text, nothing otherwise. `Traversal.AddMessageArtifacts` implements it. |
| Traversal.Walk | background.js:63-122 | The effect of `processMessage`: visit the message, then, unless the depth is past 100, walk its sorted children one level deeper. Related to the pre-order fold by `Traversal.WalkIsRunAll`; `Traversal.ProcessMessage` implements it. |
| Traversal.WalkAll | background.js:107-119 | The effect of the `forEach` over the children, each walked in turn. Related to the pre-order fold by `Traversal.WalkAllIsRunAll`; `Traversal.ProcessChildren` implements it. |
| Traversal.AddArtifactFile | background.js:77-85 | One artifact adds one to the count, takes the unique name `getUniqueFileName` picks, and stores its content under that name. |
| Traversal.AddArtifactFiles | background.js:76-87 | The `forEach` over the artifacts has the effect of adding them one by one, in order. |
| Traversal.AddMessageArtifacts | background.js:73-91 | An assistant message with text has its artifacts added. Any other message leaves the state unchanged. |
| Traversal.ProcessMessage | background.js:63-122 | The names, the zip and the returned count are those of `Walk`. `Walk` visits the message, then, unless the depth is past 100, walks its children one level deeper. |
| Traversal.ProcessChildren | background.js:107-119 | The `forEach` over the sorted children walks each child in turn, threading the count. |
| Traversal.WalkIsRunAll | background.js:63-122 | The recursive walk has the same effect as visiting the pre-order list of the messages it reaches, one after another. |
| Traversal.WalkAllIsRunAll | background.js:107-119 | Walking a list of children has the same effect as visiting their pre-order lists, one after another. |
| Traversal.RunAllAppend | background.js:109-119 | Visiting one list of messages and then another is visiting the two lists joined. |
| Traversal.AddArtifactExtends | background.js:77-85 | One artifact adds one fresh name and one new file and keeps every earlier file, because its name was never used before. |
| Traversal.AddArtifactsExtends | background.js:76-87 | The artifacts of a message add as many fresh names and new files as there are artifacts. |
| Traversal.RunAllExtends | background.js:63-122 | Over a walk, the count grows by the number of artifacts in the visited messages. Each artifact becomes its own new file under a new name, and every earlier file keeps its content. |
| Traversal.DepthCutoff | background.js:93-99 | Past depth 100 the walk visits the message itself (its artifacts still count) and none of its children. |
| Traversal.PreorderListed | background.js:101-119 | From a message of the conversation, the walk visits only messages of the conversation. |
| Traversal.WalkListed | background.js:101-119 | Whatever the start message, everything the walk visits after it is a message of the conversation. |
| Traversal.SelfParentVisits | background.js:93-119 | A message that is its own parent, is listed once, and is the only listed message whose parent is its `uuid`, is visited once per level down to the limit, `102 - depth` times, and then the walk stops. |

## Left out

- The Chrome plumbing is not modelled: the runtime message listener that zips stored artifacts (background.js:5-61), the tab and web-request listeners, and `fetchDocs`/`isOwnRequest` (background.js:229-289). It is I/O against browser interfaces.
- `arrayBufferToBase64` (background.js:219-227) and the zip encoding are not modelled. The zip is the map from file name to content that `zip.file` builds; compression and folder entries are not modelled.
- `content.js` is not part of this model. It is page UI.
- `created_at` is a number in the model. Parsing a date string with `new Date`, and invalid dates comparing as `NaN`, are not modelled.
- `toLowerCase` is modelled on ASCII letters only. Full Unicode case mapping is not modelled.
- The lookup `languageToExt[key]` is modelled on the 19 listed keys. Keys inherited from `Object.prototype` (such as `constructor`) yield no extension in the model, while in JavaScript they yield a truthy non-string value.
- JavaScript strings are UTF-16 code units and may hold lone surrogates; the model's strings are sequences of Unicode scalar values and cannot. On well-formed text the scanner, `trim` and the sanitiser give the same results either way.
- `message.index` and the artifact count are unbounded integers in the model. In JavaScript `messageIndex + 1` and `artifactCount++` are floating-point arithmetic, which rounds from 2^53 on (index 9007199254740992 gives the prefix `9007199254740992_`); that rounding is not modelled. A non-integer index (0.5 giving `1.5_`), a missing or non-numeric one (`NaN`, `undefined`), and the exponent form JavaScript writes for numbers at or beyond 1e21 are not modelled either.
- The `try`/`catch` around one message's artifacts and the console logging are not modelled. No modelled operation can throw.
- The choice of the start message (the root) is not modelled. No code in `background.js` makes it, and `processMessage` is taken as given its start message.
