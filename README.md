# Prompt enhancer and image gallery, modelled in Dafny

This project models two pieces of decision logic from a Next.js image-generation app.

**The prompt-enhancement endpoint** (`POST` in `api/translate-prompt.ts`) takes the user's `text` and asks a chat-completion service for an image prompt. It then decides what to return:
- a missing `text` is answered with 400;
- a completion that reads as a refusal is replaced by a fixed business-consultation prompt;
- a completion that is too short is wrapped in a fixed preamble and postamble;
- anything else is returned as it is;
- any exception is answered with a fixed template around the error message.

Module `PromptEnhancer` (`prompt_enhancer.dfy`) states this as pure functions with lemmas. The completion service's answer is an input.

**The image gallery component** (`ImageGallery` in `components/image-gallery.tsx`) keeps five state cells: `images`, `loading`, `error`, `selectedImage` and `isDeleting`. Its handlers update them step by step: load the user's images, delete one, select and deselect, and reload on a `gallery:update` event naming the same user. Module `Gallery` (`gallery.dfy`) has two layers:
- the state as a value `View`, with one function per handler and lemmas about them;
- the class `ImageGallery`, whose fields are the state cells and whose methods update them as the component does, each proved to match its function.

What the storage backend answers is a parameter of each handler. Module `GalleryText` (`gallery_text.dfy`) covers two things:
- the prompt shown in the detail panel, which is the text after the `English Prompt:` marker, trimmed;
- the file name a download is saved under.

Module `JsString` (`js_string.dfy`) gives the JavaScript string built-ins these rely on, over `seq<char>`:
- `includes`/`indexOf`;
- `split` on one character, and `split(sep)[1]` on a string;
- `trim()`;
- `replace(/\s+/g, '-')`;
- `substring(0, n)`;
- decimal rendering.

Module `Options` (`options.dfy`) holds the `Option` type, which stands for JavaScript's `null`/`undefined` against a present value.

A Dafny `char` is a Unicode scalar value. For text made only of characters in the Basic Multilingual Plane, that is one UTF-16 code unit, and then `|s|` is JavaScript's `s.length`. `Whitespace` lists the characters that `\s` matches and `trim()` removes: the ECMAScript WhiteSpace and LineTerminator characters.

Some behaviours of the component are easy to miss:
- The copy button copies the stored prompt, not the text shown (`components/image-gallery.tsx:309`).
- A failed load keeps the images already shown; only the error message is set (`components/image-gallery.tsx:42-52`).
- A successful load does not clear an earlier error message (`components/image-gallery.tsx:46`).
- A change of the `userId` prop keeps the state cells and re-runs the load (`components/image-gallery.tsx:56-59`). So after a failed load for the new user, the previous user's images and selection remain and the error becomes the load error message; with no new user, the error remains as well.

## Model

| member | source | states |
|---|---|---|
| PromptEnhancer.HandlePost | api/translate-prompt.ts:8-101 | a missing `text` (and only that) gives 400 with the fixed message; every other path gives 200 with `isValidImagePrompt` true and a prompt that is non-empty and not too short. That prompt is the processed completion, or the failure template around the error's text when reading the request or the completion fails |
| PromptEnhancer.MissingTextIgnoresCompletion | api/translate-prompt.ts:12-17 | absent or empty `text` gives the 400 response whatever the completion would have been, so the answer does not depend on any completion |
| PromptEnhancer.PostProcess | api/translate-prompt.ts:60-89 | the returned prompt is the completion text, the default prompt or the enriched text, and it is never too short (at least 100 characters and 15 `' '`-pieces) |
| PromptEnhancer.HardRefusalGivesDefault | api/translate-prompt.ts:63-73 | a completion containing `not appropriate`, `I cannot` or `I apologize` gives exactly the default prompt |
| PromptEnhancer.LongApologyIsNotRefusal | api/translate-prompt.ts:63-84 | `I'm sorry` in a completion of 100 or more characters is no refusal; such a completion is enriched or kept according to its piece count |
| PromptEnhancer.RefusalIsNeverWrapped | api/translate-prompt.ts:63-84 | the refusal check comes first: a refusal gives the default prompt, which differs from the enrichment of every text |
| PromptEnhancer.DefaultPromptIsNotEnriched | api/translate-prompt.ts:68-78 | the default prompt is not `Enrich(q)` for any `q` |
| PromptEnhancer.Enrich | api/translate-prompt.ts:77-78 | the wrapped prompt holds the completion right after the preamble, has the summed length, and is at least 100 characters with at least 15 `' '`-pieces |
| PromptEnhancer.EnrichContains | api/translate-prompt.ts:78 | the wrapped prompt includes the completion as a substring |
| PromptEnhancer.EmptyCompletionIsEnriched | api/translate-prompt.ts:60-84 | a null or empty completion is treated as `""` and enriched, so the prompt is never empty |
| PromptEnhancer.ShortCompletionIsEnriched | api/translate-prompt.ts:77-82 | every completion that is no refusal but has fewer than 100 characters or fewer than 15 pieces is wrapped in the enrichment text, which contains it |
| PromptEnhancer.PassThrough | api/translate-prompt.ts:86-89 | a completion that is no refusal and not too short is returned unchanged |
| PromptEnhancer.PostProcessStable | api/translate-prompt.ts:63-89 | a processed prompt that does not read as a refusal comes back unchanged when processed again |
| PromptEnhancer.ErrorText | api/translate-prompt.ts:94 | the error's text is never empty and is the message itself when there is one |
| PromptEnhancer.ErrorFallback | api/translate-prompt.ts:95 | the failure prompt holds the error's text right after the template's first part and is never too short |
| PromptEnhancer.ErrorFallbackText | api/translate-prompt.ts:94-95 | the failure prompt is the template around the message, or around `unknown input` when the message is absent or empty |
| PromptEnhancer.ShortRefusalExample | api/translate-prompt.ts:63-73 | `I cannot create that.` gives the default prompt |
| PromptEnhancer.DefaultPromptNotShort | api/translate-prompt.ts:68 | the default prompt is at least 100 characters with at least 15 pieces |
| PromptEnhancer.EnrichPostambleSpaces | api/translate-prompt.ts:78 | the enrichment template is at least 100 characters and its postamble has at least 14 spaces |
| PromptEnhancer.ErrorTemplateSpaces | api/translate-prompt.ts:95 | the failure template is at least 100 characters and its first part has at least 14 spaces |
| Gallery.WithoutId | components/image-gallery.tsx:91 | the filtered list is no longer than the list |
| Gallery.WithoutIdMembers | components/image-gallery.tsx:91 | an image is kept exactly when it is in the list and has another id |
| Gallery.WithoutIdAppend | components/image-gallery.tsx:91 | filtering a concatenation concatenates the filtered parts, so the kept images stay in order |
| Gallery.WithoutIdAbsent | components/image-gallery.tsx:91 | a list with no image of that id is left as it is |
| Gallery.WithoutIdIdempotent | components/image-gallery.tsx:91 | filtering twice equals filtering once |
| Gallery.Load | components/image-gallery.tsx:32-53 | after a load `loading` is false and the selection and pending delete are untouched; the error changes only on a failed fetch |
| Gallery.LoadWithoutUser | components/image-gallery.tsx:33-36 | with no user id only `loading` changes, to false |
| Gallery.LoadReplaces | components/image-gallery.tsx:40-46 | a successful fetch shows exactly the fetched list, or `[]` for null, whatever was shown before |
| Gallery.LoadFailureKeepsImages | components/image-gallery.tsx:42-52 | a failed fetch keeps the images and sets the load error message |
| Gallery.Delete | components/image-gallery.tsx:82-103 | after a delete no delete is pending and `loading` is unchanged |
| Gallery.DeleteRemovesExactly | components/image-gallery.tsx:91-96 | a successful delete leaves `WithoutId` of the images, so exactly the images with another id, in order; a selection of the deleted image becomes null, a selection of another image or no selection is kept; the error is left alone |
| Gallery.DeleteFailureKeepsState | components/image-gallery.tsx:84-101 | a failed delete keeps the images and the selection and sets the delete error message |
| Gallery.DeleteIdempotent | components/image-gallery.tsx:82-103 | deleting the same id twice equals deleting it once |
| Gallery.Select | components/image-gallery.tsx:241 | clicking an image selects it, and the images, loading flag, error and pending delete are unchanged |
| Gallery.Deselect | components/image-gallery.tsx:265 | the close button clears the selection, and the images, loading flag, error and pending delete are unchanged |
| Gallery.Update | components/image-gallery.tsx:64-70 | an event for another user id leaves the state as it is |
| Gallery.UpdateMatchesLoad | components/image-gallery.tsx:64-70 | an event for the bound user id does exactly what a load does |
| Gallery.SwitchKeepsPreviousUser | components/image-gallery.tsx:33-59 | after a change of user whose load fails, or with no new user, the previous user's images and selection remain (and with no new user, the error as well) |
| Gallery.ImageGallery.constructor | components/image-gallery.tsx:23-27 | the initial state: no images, loading, no error, nothing selected or being deleted |
| Gallery.ImageGallery.LoadImages | components/image-gallery.tsx:32-53 | the new state is `Load` of the old one, and the images are fetched for the bound user exactly when there is one |
| Gallery.ImageGallery.HandleDelete | components/image-gallery.tsx:82-103 | the new state is `Delete` of the old one |
| Gallery.ImageGallery.SelectImage | components/image-gallery.tsx:241 | the new state is `Select` of the old one |
| Gallery.ImageGallery.DeselectImage | components/image-gallery.tsx:265 | the new state is `Deselect` of the old one |
| Gallery.ImageGallery.ChangeUser | components/image-gallery.tsx:56-80 | a new `userId` prop becomes the bound id, the state cells are kept, and the new state is `Load` for the new user |
| Gallery.ImageGallery.HandleGalleryUpdate | components/image-gallery.tsx:64-70 | it reloads exactly when the event's user id equals the bound one, and the new state is `Update` of the old one |
| Gallery.ImageGallery.CopyPrompt | components/image-gallery.tsx:309 | the copy button copies the stored prompt of the selected image |
| GalleryText.DisplayPrompt | components/image-gallery.tsx:325-327 | a prompt without the marker is shown as it is; with the marker, what is shown is the trimmed `split(marker)[1]`: the text between the first marker and the next one or the end. It holds no marker and is shorter than the prompt by at least the marker's length |
| GalleryText.DisplayOfTranslation | components/image-gallery.tsx:325-327 | a prompt stored as a text, the marker and a translation, neither holding the marker, is shown as the trimmed translation |
| GalleryText.DisplayPromptIdempotent | components/image-gallery.tsx:325-327 | showing what is shown changes nothing |
| GalleryText.DisplayDiffersFromStored | components/image-gallery.tsx:309-327 | for a prompt with the marker, the text shown differs from the stored prompt that the copy button copies |
| GalleryText.Slug | components/image-gallery.tsx:108 | the prompt part of a file name is the prompt's first 20 characters with each whitespace run replaced by one dash; it has no whitespace, at most 20 characters, and the same other characters in the same order |
| GalleryText.DownloadFileName | components/image-gallery.tsx:108 | the name is `flux-`, the slug, `-`, the time in decimal and `.png`, in that order; it holds no whitespace, and the time can be read back from the digits before `.png` |
| JsString.IndexOf | components/image-gallery.tsx:325 | the index found is the first occurrence, and there is none exactly when no occurrence exists |
| JsString.SecondPiece | components/image-gallery.tsx:326 | `split(sep)[1]` starts right after the first separator, runs to the next separator or the end, and holds no separator |
| JsString.Split | api/translate-prompt.ts:77 | `split(' ')` gives one more piece than there are separators, no piece holds a separator, and joining the pieces gives the text back |
| JsString.Trim | components/image-gallery.tsx:326 | `trim()` gives a slice of the text with no whitespace at either end, all of the text before and after it being whitespace |
| JsString.TrimTrimmed | components/image-gallery.tsx:326 | trimming is idempotent and leaves a trimmed text alone |
| JsString.DashRuns | components/image-gallery.tsx:108 | `replace(/\s+/g, '-')` leaves no whitespace, keeps a text without whitespace as it is, is empty only for the empty text, and ends in a dash when the text ends in whitespace |
| JsString.DashRunsKeepsLetters | components/image-gallery.tsx:108 | every other character is kept, in order |
| JsString.DashRunsOfRun | components/image-gallery.tsx:108 | a run made only of whitespace becomes a single dash |
| JsString.DashRunsAppend | components/image-gallery.tsx:108 | runs do not merge across a non-whitespace boundary |
| JsString.Prefix | components/image-gallery.tsx:108 | `substring(0, n)` is the first `min(n, length)` characters |
| JsString.DecimalString | components/image-gallery.tsx:108 | `${n}` is a non-empty run of digits, with a leading zero only for 0 |
| JsString.DecimalRoundTrip | components/image-gallery.tsx:108 | reading the decimal rendering back gives the number |

## Left out

- The chat-completion client, its request (model, system instruction, temperature, token limit) and the `style` field that feeds only that request (`api/translate-prompt.ts:4-6, 19-58`). The completion's content, or the error it throws, is an input of `HandlePost`.
- Logging with `console.error` in both files.
- HandlePost: a `text` that is a non-string JSON value (a number, `false`, an object) is not modelled; `text` is absent or a string.
- A JSON body that is `null`, or a completion without choices, makes the code throw. These are modelled as the failure they cause (`Unreadable` or `CompletionFailed`), with the thrown message as a parameter.
- The storage backend calls `getUserImages` and `deleteUserImage`. What they return is a parameter of `LoadImages` and `HandleDelete`, and the error's own message, which is only logged, is not kept.
- All rendering, including the spinner, login and empty-gallery screens, the grid and the detail panel. Also left out: image components, icons and toast notifications.
- The clipboard write, the `isCopying` flag and its timer, and `openImageInNewTab` with its fetch, blob URL and revoke timer (`components/image-gallery.tsx:125-189`). These are browser I/O and timers; `CopyPrompt` only says which text is copied.
- The download anchor that `handleDownload` creates and clicks (`components/image-gallery.tsx:105-112`). The time `Date.now()` is the parameter `now` of `DownloadFileName`.
- `formatCreatedAt`, whose output depends on the locale's date formatting (`components/image-gallery.tsx:114-123`).
- Concurrency and timing. Each handler is one atomic step, so the following are not modelled:
  - overlapping loads whose answers land out of order;
  - the `isDeleting` value while a delete is in flight;
  - the selection captured by a handler's closure at render time;
  - registration and removal of the event listener.
- next.config.ts, which is static build configuration.
- Characters outside the Basic Multilingual Plane (emoji, for instance) are one `char` here, but two UTF-16 code units in JavaScript. For text holding them, the model differs from the source in three places: `prompt.length < 100` (`api/translate-prompt.ts:66, 77`), `substring(0, 20)` (`components/image-gallery.tsx:108`), and a `substring` that cuts such a character in half. Lone surrogate code units cannot be represented at all. There is no Unicode normalisation, in the model or in the source.
