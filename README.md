# Wedding invitation page: a verified model of its script logic

This project models the rules buried in the page script `script.js` of a wedding
invitation site, and proves properties of them in Dafny. The browser, the DOM, the
network and the timers are abstracted away. What remains is:

- **HTML escaping** (`html_escape.dfy`, module `HtmlEscape`).
  - `escapeHtml` replaces `& < > " '` by their entities.
  - `Unescape` is the matching decoder.
  - `Safe` describes the strings the encoder can produce. They hold no raw `<`, `>`, `"` or `'`, and every `&` in them begins one of the five entities.
  - The encoder and decoder are proved to be inverse bijections between all strings and safe strings.
- **Guest name** (`guest_name.dfy`, module `GuestName`).
  - The `to` URL parameter is split on `" "`, each word is title-cased (ASCII only), and the words are joined with `" "`.
  - `Split` and `Join` are proved inverse.
  - Formatting keeps the word count and the length, title-cases every word, and is idempotent.
- **Countdown** (`countdown.dfy`, module `Countdown`).
  - The milliseconds left until 2025-11-29 10:00 (UTC+7) are split into days, hours, minutes and seconds.
  - Each field is rendered in decimal and padded with `"0"` to at least two characters.
  - The split is proved bounded, unique and exact to the second.
  - The rendered digits are proved to read back as the split.
- **Sections and navigation** (`navigation.dfy`, module `Navigation`).
  - The class `Page` holds `currentSection`, an array of section displays and an array of nav-button "active" flags.
  - `showSection` ignores an index out of range. Otherwise it hides the current section, shows the new one and rewrites the flags so that exactly the button of the current section is active.
- **Gallery** (`gallery.dfy`, module `Gallery`).
  - The class `Gallery` holds the image list, the current index and the modal state.
  - Next and previous move the index cyclically and are proved inverse.
  - n steps forward return to the start.
  - A swipe longer than 50 pixels moves the index one way or the other.
- **Guestbook** (`guestbook.dfy`, module `Guestbook`).
  - `String.prototype.trim` is modelled over the ECMAScript whitespace set.
  - The submit handler's validation checks the trimmed name first (at least 2), then the trimmed text (at least 5). Lengths are JavaScript string lengths: UTF-16 code units, so a character beyond U+FFFF, such as an emoji, counts twice.
  - A load stores the fetched list reversed, or `[]` on any error.
  - The list is rendered as a placeholder or as one escaped item per message. The rendered items are safe, and the messages can be read back from them.
  - The class `MessageBoard` holds the messages, the rendered list, the two inputs, the last toast, the focus and the POSTs sent. Its methods are the handlers.

The network is represented by the outcome of each request: an `Option` holding the fetched array (`None` when the fetch, the JSON parsing or the reversal threw), and a `bool` telling whether the POST completed. The clock is the parameter `now` of `UpdateCountdown`. The DOM elements a handler looks up are taken to exist.

## Model

| member | source | states |
|---|---|---|
| HtmlEscape.EscapeChar | script.js:565-571 | A special character becomes an entity that starts with `&` and ends with `;`; any other character is kept as it is |
| HtmlEscape.Escape | script.js:564-576 | The output is never shorter than the input, and an input without any of the five special characters is returned unchanged |
| HtmlEscape.EscapeIsSafe | script.js:563-576 | Every output of escapeHtml is Safe: no `<`, `>`, `"` or `'`, and every `&` begins one of the five entities |
| HtmlEscape.EscapeGrows | script.js:573-575 | An input holding a special character makes the output strictly longer |
| HtmlEscape.EscapeFixpoint | script.js:573-575 | escapeHtml leaves a string unchanged exactly when it holds none of the five special characters |
| HtmlEscape.UnescapeEscape | script.js:564-576 | Decoding the entities of an escaped string gives back the original exactly |
| HtmlEscape.EscapeUnescape | script.js:564-576 | Every Safe string is the escape of its decoding, so Safe is exactly the set of escapeHtml outputs |
| HtmlEscape.SafeConcat | script.js:573-575 | Gluing two safe strings together gives a safe string (replacement is character by character) |
| GuestName.UpperChar | script.js:51 | toUpperCase on ASCII leaves no lower-case letter and maps a space only from a space |
| GuestName.LowerChar | script.js:51 | toLowerCase on ASCII leaves no upper-case letter and maps a space only from a space |
| GuestName.FormatWord | script.js:51 | The word keeps its letters up to case, is in title case, and gains no space |
| GuestName.FormatWordFixpoint | script.js:51 | Formatting a word leaves it unchanged exactly when it is already in title case |
| GuestName.Split | script.js:50 | split(" ") gives one more word than there are spaces, and no word holds a space |
| GuestName.JoinSplit | script.js:50-52 | join(" ") undoes split(" ") |
| GuestName.SplitJoin | script.js:50-52 | split(" ") undoes join(" ") on words without spaces |
| GuestName.Join | script.js:52 | join(" ") starts with the first word, and words without spaces are separated by exactly one space each |
| GuestName.FormatWords | script.js:51 | Word k of the map's result is in title case and spells word k of its input up to case |
| GuestName.Format | script.js:49-52 | The formatted name is as long as the input, and its words are the title-cased words of the input, in order |
| GuestName.WordCount | script.js:49-52 | Formatting keeps the number of space-separated words |
| GuestName.WordsTitleCased | script.js:49-52 | Word k of the result is in title case and spells word k of the input up to case |
| GuestName.FormatIdempotent | script.js:49-52 | Formatting twice is formatting once |
| GuestName.ExtractGuestName | script.js:44-56 | A name is written exactly when the `to` parameter is present and non-empty. It is then the formatted parameter, with the same length and number of words |
| Countdown.Decompose | script.js:173-179 | For a positive time left: hours < 24, minutes < 60, seconds < 60, and days·86400000 + hours·3600000 + minutes·60000 + seconds·1000 + timeLeft % 1000 = timeLeft |
| Arithmetic.UniqueQuotient | script.js:174-179 | A quotient and a remainder below the divisor are determined by the dividend |
| Arithmetic.DivModOf | script.js:174-179 | Math.floor(t / m) and t % m are the quotient and remainder of any such split of t |
| Countdown.Recompose | script.js:174-179 | The floor/modulo chain of updateCountdown is bounded and adds back up to the time left |
| Countdown.DecomposeUnique | script.js:174-179 | No other split with those bounds adds up to the same time left |
| Countdown.DigitChar | script.js:181-183 | A digit value becomes the character of that digit |
| Countdown.Decimal | script.js:181-183 | toString of a natural number is a non-empty digit string, of one digit exactly below 10 and of at most two below 100, that starts with "0" only for 0 |
| Countdown.ValuePositive | script.js:181-183 | A digit string that does not start with "0" denotes at least 1 |
| Countdown.DecimalCanonical | script.js:181-183 | toString is the only digit string without a superfluous leading zero that denotes its value |
| Countdown.DecimalValue | script.js:181-183 | The decimal string reads back as the number |
| Countdown.PadStart | script.js:182-183 | padStart gives the longer of the string and the width, ends with the string, and fills with "0" |
| Countdown.LeadingZeros | script.js:182-183 | Leading "0" characters do not change the value of a digit string |
| Countdown.PadStartValue | script.js:181-183 | padStart(2, "0") on a decimal string gives a digit string of the same value |
| Countdown.Field | script.js:181-192 | A field is at least two digits, exactly two below 100, starts with "0" only when it has exactly two, and reads back as its value |
| Countdown.FieldUnique | script.js:181-192 | Those properties fix the field: no other digit string has them for the same value |
| Countdown.Render | script.js:173-198 | Non-positive time left shows "00" four times; otherwise days has at least two digits and a leading "0" only when it has two, the other fields have exactly two, and they read back as the decomposition |
| Countdown.UpdateCountdown | script.js:167-199 | Once the wedding date is reached every field is "00"; before it the shown fields add up to the time left, truncated to the second. Hours, minutes and seconds always have two digits; days has at least two and a leading "0" only when it has two |
| Navigation.OnlyShown | script.js:59-63 | Section j is displayed exactly when j is the chosen index |
| Navigation.ActiveFlags | script.js:93-98 | Button j is active exactly when j is the current section |
| Navigation.ExactlyOneActive | script.js:93-98 | Exactly one button is active when the current section has a button, none otherwise |
| Navigation.ExactlyOneShown | script.js:59-79 | Exactly one section is displayed when the current index is in range |
| Navigation.Page.constructor | script.js:2-3 | The globals start with currentSection = 0 and no sections |
| Navigation.Page.InitializeSections | script.js:59-64 | The queried sections become the global list, with section 0 shown and every other hidden |
| Navigation.Page.UpdateNavigation | script.js:93-98 | After the loop, the active flags are exactly those of the current section |
| Navigation.Page.ShowSection | script.js:67-90 | An index out of range changes nothing. Otherwise the old section is hidden, the new one shown, no other section touched, exactly its button made active, and "only the current section is shown" is preserved |
| Navigation.Start | script.js:22-23 | After initializeSections and showSection(0), only section 0 is shown and its button alone is active |
| Gallery.Next | script.js:392-395 | (i + 1) % n stays in [0, n) and wraps from the last image to the first |
| Gallery.Prev | script.js:385-389 | (i - 1 + n) % n stays in [0, n) and wraps from the first image to the last |
| Gallery.NextPrevInverse | script.js:385-395 | prevImage undoes nextImage and the other way round |
| Gallery.NextTimesIsModular | script.js:392-395 | k calls of nextImage from i land on (i + k) mod n |
| Gallery.FullCycle | script.js:392-395 | n calls of nextImage return to the starting image |
| Gallery.SwipeDecision | script.js:436-447 | With diff = start − end: no move when abs(diff) ≤ 50, next when diff > 50, previous when diff < −50 |
| Gallery.AfterSwipe | script.js:440-446 | The index after a swipe stays in range |
| Gallery.SwipeBack | script.js:436-447 | A swipe followed by the reverse swipe shows the starting image again |
| Gallery.Gallery.constructor | script.js:328-337 | After initializeGallery the list holds the six images, the index is 0 and the modal is closed |
| Gallery.Gallery.OpenGallery | script.js:340-355 | The index becomes the given one, the modal shows that image, and the modal is open |
| Gallery.Gallery.CloseGallery | script.js:357-364 | The modal is closed |
| Gallery.Gallery.PrevImage | script.js:385-389 | The index steps back cyclically and the modal shows the image at the new index |
| Gallery.Gallery.NextImage | script.js:392-395 | The index steps forward cyclically and the modal shows the image at the new index |
| Gallery.Gallery.HandleGallerySwipe | script.js:436-447 | The index moves as SwipeDecision says, and after a move the modal shows the image at the new index. A short swipe changes nothing. The image list and the open state are kept |
| Gallery.Gallery.KeyDown | script.js:367-382 | While the modal is open the arrows move back and forward, and the modal shows the image at the new index. Escape always closes it and keeps the index and the image. Any other key changes nothing |
| Guestbook.ToastText | script.js:527-558 | Every toast text is non-empty, and only the two validation messages start with "N" or "P" |
| Guestbook.ToastTextInjective | script.js:527-558 | Different toasts show different texts |
| Guestbook.IsJsWhitespace | script.js:522-523 | trim() removes space, tab, line feed and carriage return, and only characters of the Basic Multilingual Plane |
| Guestbook.TrimStart | script.js:522-523 | Only whitespace is removed, from the front only, and the result does not start with whitespace |
| Guestbook.TrimEnd | script.js:522-523 | Only whitespace is removed, from the back only, and the result does not end with whitespace |
| Guestbook.Trim | script.js:522-523 | trim() leaves no whitespace at either end of its result |
| Guestbook.TrimIsSlice | script.js:522-523 | trim() returns a slice of the input with only whitespace around it |
| Guestbook.TrimFixpoint | script.js:522-523 | A string is its own trim exactly when it has no whitespace at either end |
| Guestbook.TrimIdempotent | script.js:522-523 | Trimming twice is trimming once |
| Guestbook.Utf16Length | script.js:526-535 | `.length` counts one or two UTF-16 code units per character |
| Guestbook.Utf16LengthBmp | script.js:526-535 | The code-unit count equals the character count exactly when no character lies beyond U+FFFF |
| Guestbook.Validate | script.js:522-535 | The name error exactly when the trimmed name is shorter than 2 code units; the text error exactly when the name passes and the trimmed text is shorter than 5 code units; otherwise the payload {name, message} of the trimmed inputs |
| Guestbook.ValidateTrimmed | script.js:522-546 | Inputs without whitespace at their ends, of at least 2 and 5 code units, are posted as they are |
| Guestbook.EmojiCountTwice | script.js:526-535 | A name of one emoji and a text of three emoji are accepted, since each emoji counts two code units |
| Guestbook.AcceptedPayloadIsValid | script.js:526-546 | The posted payload is trimmed and long enough in code units, and validating it again accepts it unchanged |
| Guestbook.Reverse | script.js:468 | Element k of the reversal is element n−1−k of the input |
| Guestbook.ReverseReverse | script.js:468 | Reversing twice gives back the fetched array |
| Guestbook.Loaded | script.js:460-475 | After a load, messages is the fetched array reversed, or [] after any error |
| Guestbook.RenderItem | script.js:492-499 | A message item whose escaped name and text decode back to the message's name and text |
| Guestbook.Rendered | script.js:479-503 | An empty list renders as the placeholder alone; otherwise item k shows the escaped name and text of message k |
| Guestbook.PlaceholderIffEmpty | script.js:485-489 | The placeholder appears exactly when there are no messages, and then nothing else does |
| Guestbook.RenderedIsSafe | script.js:496-499 | No rendered name or text can inject markup |
| Guestbook.RecoverRendered | script.js:491-502 | Every message can be read back from the rendered list, in order |
| Guestbook.MessageBoard.constructor | script.js:7 | The board starts with no messages, no posts, empty inputs and no toast |
| Guestbook.MessageBoard.Fill | script.js:519-520 | The inputs hold what the guest typed |
| Guestbook.MessageBoard.DisplayMessages | script.js:479-506 | After the loop, the list is the rendering of the messages |
| Guestbook.MessageBoard.LoadMessages | script.js:456-476 | Messages become Loaded(response) and the list is their rendering |
| Guestbook.MessageBoard.Submit | script.js:516-560 | As written: on either validation error, that toast is shown, the matching input is focused and nothing is posted. An accepted payload is posted exactly once. A resolved POST clears both inputs. The failure toast is shown in every case, and the success toast never is |
| Guestbook.MessageBoard.SendAsWritten | script.js:539-559 | As written: the payload is posted once and the failure toast shown; a resolved POST clears both inputs, a failed one keeps them |
| Guestbook.MessageBoard.Reject | script.js:526-535 | A validation error shows its toast and focuses its input |
| Guestbook.MessageBoard.SubmitFixed | script.js:516-560 | As intended: the same validation, with both inputs and the list kept on an error, and the payload is posted. After a resolved POST the inputs are cleared, the list is reloaded and rendered, and the success toast is shown. The success toast appears exactly when the input is valid and the POST resolves |
| Guestbook.MessageBoard.Send | script.js:539-555 | As intended: the payload is posted; a resolved POST clears the inputs, reloads and renders the list and shows the success toast; a failed one shows the failure toast and changes nothing else |

## Left out

- Network: `fetch`, JSON parsing and the spreadsheet endpoint become the parameters described above. The response records are modelled as `{name, text}` values. A record without a string `text` (the sample comment at script.js:465 shows `message` instead) would make `escapeHtml` throw inside the load's `try`, leaving the list empty. The model does not capture that.
- Timers and scheduling: the preloader's timeouts, `setInterval` for the countdown, the 50 ms delayed `visible` class, toast auto-hide, the `IntersectionObserver`s, service-worker registration, lazy-loading polyfill and image preloading. These are browser scheduling, with no rule of their own.
- Music (`toggleMusic`, `initializeMusic`, `updateMusicControl`): asynchronous promise callbacks mixed with `localStorage`.
- Clipboard copy, the maps link, the context-menu blocker and `openInvitation`'s scroll and music start: foreign browser APIs.
- `initializeNavigation` and `initializeTouchNavigation`: they only wire listeners that call the modelled handlers.
- Scrolling (`window.scrollTo`, `scrollTop = scrollHeight`), `document.body.style.overflow`, and the modal image's `alt` text: DOM geometry and cosmetics.
- The animation delay `index * 0.1`: floating point and cosmetic.
- `screenX` is taken to be an integer. Browsers report it as a number that may be fractional.
- `URLSearchParams` percent-decoding of the `to` parameter: the model starts from the decoded value.
- Full Unicode case mapping: `toUpperCase`/`toLowerCase` are modelled on ASCII letters only. Other characters are kept as they are.
- Gallery.Gallery.OpenGallery: requires the index to be in range. The page only calls it with the indices of its six images. With any other index the script would set `src` to `undefined`.
- Gallery state before `initializeGallery`: an empty image list would make `%` by zero yield `NaN`. The model starts after initialization.
- Concurrent or overlapping submissions: event-loop interleaving is not a sequential property.
- The toast's on-screen state is reduced to which of the four toasts was shown last. `ToastText` gives each one's text.
- The absence guards (`if (modal && modalImage)`, `if (!messagesList) return`, `if (!messageForm) return`): the elements are taken to exist.

## Findings

| source | as written | input that shows it | evidently intended | confidence | as-written member | corrected member |
|---|---|---|---|---|---|---|
| script.js:553 | After a successful POST the handler awaits `loadMessagesFromSheet()`, which is defined nowhere in script.js. The ReferenceError lands in the catch at script.js:556-559, so the failure toast is shown and the list is not reloaded | name "Ana", text "Selamat menempuh hidup baru", POST completes: the inputs are cleared, yet "Terjadi kesalahan saat mengirim pesan" is shown | Reload the list with `loadMessages()` and show "Ucapan berhasil dikirim" | high (by reading; not executed) | Guestbook.MessageBoard.Submit | Guestbook.MessageBoard.SubmitFixed |
