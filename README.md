# Content studio: a verified model of its core

The system is a small Next.js application for writing marketing content with
a chat-completion backend. Three API routes and two client components make up
its core:

- **The article route, `POST /api/generate`.** It classifies the topic as a
  product review, a how-to or a general article, using fixed Chinese keyword
  lists, with review words taking priority. It picks the system prompt of that
  kind and asks the backend for an article. Then it resolves the image markers
  `{{IMG_SEARCH:<keyword>}}` in the answer: each marker becomes an `<img>` tag
  from an image search, or disappears when the search finds nothing.
- **The matrix route, `POST /api/matrix`.** It writes one text per selected
  platform, fanning out one request per platform key it knows. It folds the
  answers into a map from platform key to text. A failed call gives a fixed
  failure text for that platform alone.
- **The rewrite route, `POST /api/rewrite`.** It sends every block to the
  backend with a fixed rewriting instruction. A block whose call fails keeps
  its own text.
- **The editor component.** It picks the paragraphs of the document's ops
  worth rewriting, sends them to the rewrite route, and writes the answers back
  into the same ops array by index.
- **The matrix page.** It keeps the platform selection, which a click
  toggles. It refuses to send anything without a topic or a platform, and it
  shows one tab per selected platform that has a non-empty result.

One Dafny module per source file of the core, plus two shared ones:

- `common.dfy` (`Common`): the shared values. These are requests, replies,
  JSON fields that can be absent or malformed, blocks and rewritten items.
- `strings.dfy` (`Strings`): the JavaScript string operations the code relies
  on. These are `includes`, `replace` with a string pattern, `trim` and
  `toLowerCase`.
- `generate.dfy` (`Generate`) and `placeholders.dfy` (`Placeholders`): the
  article route, with its image stage modelled in `Placeholders`.
- `matrix_route.dfy` (`MatrixRoute`), `rewrite_route.dfy` (`RewriteRoute`):
  the other two routes.
- `editor.dfy` (`Editor`): the editor's rewrite handler. The ops are an
  `array<Op>`, and the reassembly loop writes into it in place.
- `matrix_page.dfy` (`MatrixPage`): the page, as a class `PageState` whose
  methods update the topic, selection, results and active tab fields.

Network calls are parameters. The text backend is a function from request to
reply (`Backend`), and the image search a function from keyword to an
optional URL (`ImageLookup`). Each route also returns the requests it sends,
so that "nothing is sent" can be stated; the editor and the page return the
requests they post. The code's `Promise.all` keeps input
order, so the concurrent fan-outs are modelled as maps over the input
sequence.

The model follows the code, including where the code falls short of what
its own comments and behaviour elsewhere promise:

- An unknown platform key is skipped silently. Its task returns null, and the
  fold leaves it out, so nothing tells the caller that the key was dropped.
- A failed call carries no detail about its cause. The matrix route stores
  one fixed failure text, and the rewrite route keeps the original text.
- The rewrite route answers an empty `blocks` array with an empty `data`
  array. Only the editor refuses to send an empty list.
- The article route replaces markers one after the other with a
  first-occurrence `replace`. This can leave a matched marker verbatim (see
  Findings). Even replacing each match where it was found can produce marker
  text, because the text around a removed marker can join
  (`Placeholders.MisplacingTextScan`).
- The matrix page opens the first selected platform's tab after a
  generation, whether or not that platform has a result (see Findings).

## Model

| member | source | states |
|---|---|---|
| Strings.IncludesIff | app/api/generate/route.ts:35-38 | `s.includes(w)` holds exactly when `w` starts at some offset of `s` |
| Strings.IndexOfSpec | app/api/generate/route.ts:248 | the search for a pattern finds its first occurrence at or after the start offset, or reports that none exists |
| Strings.ReplaceFirst | app/api/generate/route.ts:248 | `replace` with a string pattern rewrites the first occurrence only, keeping the text before and after it |
| Strings.ReplaceAbsent | app/api/generate/route.ts:248 | `replace` leaves a text without the pattern unchanged |
| Strings.TrimSpec | components/EditorComponent.tsx:43 | `trim` returns a slice of its input with only white space cut before and after it; the slice is empty exactly when the input is all white space, and otherwise starts and ends with a character that is not white space |
| Strings.LowerKeepsOccurrences | app/api/generate/route.ts:33-38 | lower-casing neither adds nor removes an occurrence of a word without ASCII letters |
| Generate.IncludesAnyIff | app/api/generate/route.ts:35-38 | the `\|\|` chain of `includes` tests holds exactly when some word of the list occurs in the topic |
| Generate.DetectArticleTypeSpec | app/api/generate/route.ts:32-42 | the topic is a review exactly when it names a review word; a tutorial exactly when it names a tutorial word and no review word; general otherwise |
| Generate.ReviewExample | app/api/generate/route.ts:32-42 | "二手手机推荐" is a review |
| Generate.TutorialExample | app/api/generate/route.ts:32-42 | "如何更换电池" is a tutorial |
| Generate.GeneralExample | app/api/generate/route.ts:32-42 | "量子计算是什么" is a general article |
| Generate.TypeName | app/api/generate/route.ts:36-41 | the type string is one of "REVIEW", "TUTORIAL" and "GENERAL" |
| Generate.TemplateFor | app/api/generate/route.ts:45-194 | the review template is chosen exactly for "REVIEW", the tutorial one exactly for "TUTORIAL", the general one for every other string |
| Generate.TemplateForTypeName | app/api/generate/route.ts:206-210 | the route prompts with the template of the kind it detected |
| Generate.ArticleRequest | app/api/generate/route.ts:210-218 | the request carries the article prompt of the detected kind, with the topic inserted |
| Generate.Post | app/api/generate/route.ts:197-258 | no key: 500 "Key 未配置" and nothing sent; no string topic: 500; otherwise exactly one request is sent, a failed call gives 500 with its message, and a completed one gives the answer with one first-occurrence `replace` per match applied in match order, together with the type string |
| Placeholders.KeywordFromSound | app/api/generate/route.ts:228 | the lazy `(.*?)}}` captures text that holds no line terminator and no "}}", and that is followed by "}}" |
| Placeholders.KeywordFromComplete | app/api/generate/route.ts:228 | wherever such a run is followed by "}}", the lazy group captures exactly that run |
| Placeholders.MatchAtSound | app/api/generate/route.ts:228 | a match of the pattern is a well-formed marker standing at its offset |
| Placeholders.MatchAtComplete | app/api/generate/route.ts:228 | every well-formed marker text is matched wherever it occurs |
| Placeholders.MatchAtShift | app/api/generate/route.ts:228 | what the pattern matches at an offset depends only on the text from that offset on |
| Placeholders.ScanFromSound | app/api/generate/route.ts:228-229 | `matchAll` yields well-formed markers in increasing order, without overlap |
| Placeholders.ScanFromComplete | app/api/generate/route.ts:228-229 | `matchAll` skips no match: with no hit no match starts anywhere, and otherwise the first hit is the match at the first offset where one starts, followed by the scan from the end of that match |
| Placeholders.NoOpenNoHits | app/api/generate/route.ts:228-231 | a text without "{{IMG_SEARCH:" has no match |
| Placeholders.Replacement | app/api/generate/route.ts:240-242 | the replacement is an `<img>` tag with the URL as `src` and the keyword as `alt` when the search found a non-empty URL, and the empty string otherwise |
| Placeholders.SubstitutionsSpec | app/api/generate/route.ts:232-246 | substitution i pairs the text of match i with the replacement computed from that match's own keyword |
| Placeholders.ResolveSequentially | app/api/generate/route.ts:228-250 | the image stage as written applies one first-occurrence `replace` per match, in match order; a text without a match comes back unchanged |
| Placeholders.ResolvedUpToHit | app/api/generate/route.ts:228-249 | positional resolution copies the text up to the next match, replaces that match, and goes on behind it |
| Placeholders.ResolvePlaceholders | app/api/generate/route.ts:228-250 | the corrected image stage: the loop builds the text with every match replaced where the scan found it; a text without a match comes back unchanged |
| Placeholders.ImgTagInert | app/api/generate/route.ts:241 | with a URL and keyword free of '{', the `<img>` tag holds no '{' and starts with '<' |
| Placeholders.SequentialAgreesWithPositional | app/api/generate/route.ts:246-249 | when every search finds an image and no URL or keyword holds a '{', sequential replacement gives exactly the positional result |
| Placeholders.NoMarkerUnchanged | app/api/generate/route.ts:231-249 | both resolutions leave a text without an opening marker unchanged |
| Placeholders.MisplacingTextScan | app/api/generate/route.ts:228-229 | the scan of the counterexample text finds its two markers at offsets 2 and 32 |
| Placeholders.SequentialMisplacesImage | app/api/generate/route.ts:246-249 | on that text, with a failed first search, sequential replacement puts the image in place of a marker that was never matched and leaves the matched marker verbatim; positional resolution puts the image where the matched marker stood |
| MatrixRoute.ContentOf | app/api/matrix/route.ts:75-82 | a failed call gives "生成失败，请重试。" |
| MatrixRoute.PlatformTask | app/api/matrix/route.ts:58-83 | a task is null exactly for a key without a persona; otherwise it carries its own key |
| MatrixRoute.FoldKeys | app/api/matrix/route.ts:89-92 | the map has a key for exactly the platforms some non-null item names |
| MatrixRoute.FoldLast | app/api/matrix/route.ts:89-92 | each key holds the content of the last item naming it |
| MatrixRoute.CollectResults | app/api/matrix/route.ts:89-92 | the `forEach` loop builds that fold |
| MatrixRoute.ResultsSpec | app/api/matrix/route.ts:58-92 | the answer has a key for exactly the known keys of the input, duplicates collapsed; each holds the content of its own platform's call |
| MatrixRoute.PlatformIsolated | app/api/matrix/route.ts:62-82 | a platform's entry depends only on the reply to that platform's request, whatever the other calls do |
| MatrixRoute.TwoPlatforms | app/api/matrix/route.ts:51-94 | for ["xhs", "douyin"] the map has exactly those two keys, each with its own call's content or the failure text |
| MatrixRoute.Post | app/api/matrix/route.ts:47-99 | no key: 500; a missing or empty platform list: 400 "请至少选择一个平台"; both before any request. A non-array list gives 500; otherwise one request per known key and the folded map |
| RewriteRoute.RewriteBlock | app/api/rewrite/route.ts:13-35 | a block's item keeps its index and holds the answer, or the block's own text when the call fails |
| RewriteRoute.RewriteAll | app/api/rewrite/route.ts:13-38 | one item per block, in block order, each the task of its own block |
| RewriteRoute.RewriteAllFallback | app/api/rewrite/route.ts:32-34 | when every call fails, the blocks come back with their own texts |
| RewriteRoute.Post | app/api/rewrite/route.ts:8-44 | a block list sends one request per block, in block order, and gives the rewrite of every block, one item per block; an empty list sends nothing and gives an empty `data`; a missing or non-array `blocks` sends nothing and gives 500 "处理失败" |
| Editor.ExtractTextBlocks | components/EditorComponent.tsx:39-46 | the loop over the ops array yields the blocks of the qualifying ops |
| Editor.TextBlocksSound | components/EditorComponent.tsx:41-46 | every block records a string op longer than five characters once trimmed, by its position and untrimmed text, in ascending op order |
| Editor.TextBlocksComplete | components/EditorComponent.tsx:41-46 | an op is recorded exactly when it qualifies |
| Editor.Reassemble | components/EditorComponent.tsx:57-60 | the in-place loop leaves the array as the reassembly of the old ops; it completes exactly when every index is in range, and otherwise stops at the first index that is not |
| Editor.ReassembledFrame | components/EditorComponent.tsx:57-60 | reassembly keeps the number of ops and every op's formatting, and leaves every op no item names as it was |
| Editor.ReassembledNamed | components/EditorComponent.tsx:57-60 | with distinct in-range indices, each named op gets its own item's text |
| Editor.HandleRewrite | components/EditorComponent.tsx:21-73 | no ops: "paste first" and nothing sent; no qualifying op: failure and nothing changed; otherwise one request, then a failed request leaves the ops alone, and an answer is reassembled into them, ending in "done" exactly when every index was in range |
| Editor.RoundTripAt | components/EditorComponent.tsx:39-60 | with the rewrite route's answer, each position ends up rewritten by its own block's task when it qualifies, and unchanged otherwise |
| Editor.RewriteRoundTrip | components/EditorComponent.tsx:39-60 | every index the route hands back is in range, so the rewrite completes, keeps the number of ops and rewrites exactly the qualifying ones |
| Editor.RewriteFailSafe | components/EditorComponent.tsx:53-60 | when every rewrite call fails, the document comes back exactly as it was |
| MatrixPage.FilterMembers | app/matrix/page.tsx:25 | `filter` keeps exactly the elements that pass |
| MatrixPage.FilterAppend | app/matrix/page.tsx:25 | `filter` works piece by piece, so it keeps the order of what passes |
| MatrixPage.WithoutCounts | app/matrix/page.tsx:25 | removing an id drops all its occurrences and keeps every other id as often as before |
| MatrixPage.ToggleSpec | app/matrix/page.tsx:23-29 | a toggle flips the id's membership, leaves every other id's membership alone, and appends an absent id at the end |
| MatrixPage.ToggleRemovesSingle | app/matrix/page.tsx:23-29 | removing an id that occurs once keeps the others in order |
| MatrixPage.ToggleTwice | app/matrix/page.tsx:23-29 | toggling an absent id twice gives the selection back |
| MatrixPage.VisibleTabsSpec | app/matrix/page.tsx:135-137 | a tab is shown exactly for a selected platform whose result is present and non-empty |
| MatrixPage.ActiveTabHidden | app/matrix/page.tsx:45-46 | with an empty first result, the tab the code opens is one it does not show, while the corrected choice opens the shown "douyin" tab |
| MatrixPage.FirstVisibleTab | app/matrix/page.tsx:45-46 | the corrected choice: when some tab is shown, the first selected platform that has a result, in selection order; otherwise the first selected platform |
| MatrixPage.ActiveTabAgrees | app/matrix/page.tsx:45-46 | when the first selected platform has a result, the code's choice and the corrected one agree |
| MatrixPage.PageState.constructor | app/matrix/page.tsx:16-20 | the page starts with no topic, with "xhs" and "douyin" selected and with no results |
| MatrixPage.PageState.Toggle | app/matrix/page.tsx:23-29 | the selection becomes its toggle; nothing else changes |
| MatrixPage.PageState.Generate | app/matrix/page.tsx:31-54 | a blank topic or an empty selection raises its alert, sends nothing and changes nothing. Otherwise the results are cleared and one request is sent; a failure leaves them cleared, and an answer is stored with the first selected platform's tab opened, as the code does |

## Left out

- HTTP, JSON and the `axios` calls are not modelled; the backend and the image search are functions. Being functions, they are deterministic: two identical requests get the same reply, so a platform key listed twice gets one answer for both of its calls, and a keyword that occurs in two markers gets one image. The code sends separate requests, whose replies can differ at temperature 0.8, and the per-platform statements of MatrixRoute.ResultsSpec rely on this simplification. A call that throws anywhere, including reading `choices[0].message.content` from the response, is a `Failed` reply. Timeouts and retries are not modelled.
- The concurrency of `Promise.all` is not modelled: the results are a map over the input in input order, which is what `Promise.all` returns.
- The prompt and persona texts are not modelled. A prompt is named by what selects it: the article kind with the topic, the platform key, or the fixed rewrite instruction.
- The image search (`searchImageOnBaidu`) is a parameter. Its query parameters, headers, five-second timeout and the `thumbURL` path are not modelled; "no URL" and an empty URL both count as "no image".
- The API keys come from the environment; the model passes their presence in as `keyConfigured`. The rewrite route never checks its key, and neither does the model.
- A request body that is not JSON is not modelled. A field is absent, present with the expected shape, or malformed; the exception text of a malformed field is `RuntimeMessage`, whose wording is not modelled.
- MatrixRoute.Post: the topic is taken to be a string. A missing topic would be interpolated as "undefined", and that is not modelled.
- MatrixRoute.PlatformTask: the model knows only the four keys. Keys that JavaScript objects inherit, such as "constructor", are treated as unknown, whereas the code would find a truthy value for them.
- Console logging is not modelled.
- Strings.ToLower: lower-cases only ASCII letters, where `toLowerCase` also maps other scripts. The classifier's keywords contain no letter with a case, and LowerKeepsOccurrences proves the result does not depend on it.
- Strings.Replace: does not interpret `$` patterns in the replacement text, which JavaScript's `replace` would expand.
- Strings are sequences of Unicode characters, not UTF-16 code units, so the length in the editor's "more than five characters" test counts a character outside the Basic Multilingual Plane once, where JavaScript counts it twice.
- Editor.HandleRewrite: the check for a missing editor instance (line 22) and the loading flag are not modelled. The alerts are an `Alert` value rather than their wording. `editor.setContents` is not modelled: the model's result is the ops array, which holds any writes made before an out-of-range index stopped the loop, while the code then skips `setContents`.
- Editor.Reassemble: an index is an integer; a non-numeric index or a non-string `newContent` is not modelled.
- MatrixPage.PageState.Generate: the loading flag, the clipboard copy and the rendering are not modelled, apart from which tabs are shown. The condition that hides the whole result area when the results are empty is not modelled: no tab is shown then anyway.

## Findings

| source | as written | input that shows it | evidently intended | confidence | as-written member | corrected member |
|---|---|---|---|---|---|---|
| app/api/generate/route.ts:246-249 | results are applied one after the other with `content.replace(placeholder, replacement)`, which rewrites the first occurrence of the marker text in the text as it stands. Removing an earlier marker can join the text on both sides into a copy of a later marker, and the later image then lands on that copy | `{{{{IMG_SEARCH:x}}IMG_SEARCH:}} {{IMG_SEARCH:}}` with no image for "x" and an image for "": the output is the image, a space, and the matched marker `{{IMG_SEARCH:}}` verbatim, where replacing each match in place gives the joined text, a space, and the image | every match is replaced where `matchAll` found it | medium, not executed | Placeholders.ResolveSequentially, Placeholders.SequentialMisplacesImage | Placeholders.ResolvePlaceholders, Placeholders.SequentialAgreesWithPositional |
| app/matrix/page.tsx:45-46 | the comment says the first platform with a result is opened, but the code opens `selectedPlatforms[0]` | selection ["xhs", "douyin"] with results {xhs: "", douyin: "正文"}: only the "douyin" tab is shown, but "xhs" is opened, so no content is displayed | open the first selected platform whose result is shown | high, not executed | MatrixPage.ActiveTabAsWritten, MatrixPage.ActiveTabHidden | MatrixPage.FirstVisibleTab, MatrixPage.ActiveTabAgrees |

The models of the route and of the page keep the code's behaviour (`Generate.Post` resolves markers sequentially, `MatrixPage.PageState.Generate` opens the first selected tab). Each corrected member is stated beside its as-written one and is proved to agree with it wherever the code is right: SequentialAgreesWithPositional for lookups that yield brace-free image tags, and ActiveTabAgrees when the first selected platform has a result.
