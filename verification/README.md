# College Charter page script, modelled in Dafny

`main.js` is the single client-side script of the College Charter website. It
wires event handlers to the page. Most of the handlers only move values
between elements, but a few contain logic of their own. This project models
that logic as pure functions over strings, sequences and small state records.
The page's elements become parameters and results:

- **Essay check** (`initWordCounter`, `initEssaySubmit`,
  `displayEssayFeedback`) is in module `Essay` (`essay.dfy`). It covers the
  live word, character and reading-time counter, the gating of the submit
  button, the 50-character check on a click, the sentence count, the rounded
  average sentence length and the four-entry feedback list.
- **String primitives** are in module `Text` (`text.dfy`). They cover the
  ECMAScript `\s` class (which `trim()` also uses), `trim()`, `split` on runs
  of separators, a reference count of maximal non-separator runs, and
  decimal rendering of numbers with its parse-back.
- **`validateEmail`** is in module `Email` (`email.dfy`). The regular
  expression `^[^\s@]+@[^\s@]+\.[^\s@]+$` is read as a concatenation of its
  parts. It is proved equal to a structural description: no whitespace,
  exactly one `@` and not at the start, and a dot inside the domain.
- **Form checks** for the newsletter, contact, sign-up and sign-in forms are
  in module `Forms` (`forms.dfy`). Each runs its checks in order and stops at
  the first failure, giving `Ok(kind)` or `Err(message)`. A field value of
  `""` stands for an empty field or one missing from the page.
- **Widgets** are in module `Widgets` (`widgets.dfy`): the hamburger menu,
  the monthly/yearly pricing toggle, the FAQ accordion and `setActive`. Each
  is a state record with one transition per kind of click.
- **Blog search and category filter** (`filterBlogs`, the category buttons)
  are in module `Blog` (`blog.dfy`).
- `Wrappers` (`wrappers.dfy`) holds the `Option` datatype.

Three details of the script's behaviour are easy to miss, and the model
keeps them:

- The displayed character count is the `length` of the *trimmed* text
  (main.js:110, main.js:117), not of the raw text.
- The feedback's word count has no blank-text guard (main.js:174), so blank
  text counts one word.
- With no sentence, the average sentence length is `Math.round(words / 0)`.
  The word count there is at least one, so this is `Infinity`, and the Style
  message reads "Your average sentence length is Infinity words."

JavaScript's `length` counts UTF-16 code units. The model counts them too
(`Text.Utf16Length`) wherever the script compares or shows a length: the
character count, the 50-character click check and the 6-character password
check. A character above U+FFFF counts twice.

## Model

| member | source | states |
|---|---|---|
| Text.Trim | main.js:110 | the trimmed text is a slice of the input with only whitespace before and after it; it neither starts nor ends with whitespace; it is empty exactly when the input is all whitespace; it is never longer than the input |
| Text.Split | main.js:113 | splitting on runs of a separator class gives at least one piece (`"".split` gives `[""]`) |
| Text.SplitPiecesHaveNoSep | main.js:113 | no piece of a split contains a separator |
| Text.SplitKeepsContent | main.js:113 | splitting loses exactly the separators: the pieces, written one after another, are the input with its separators removed |
| Text.SplitCountsRuns | main.js:113 | a non-empty string that neither starts nor ends with a separator splits into exactly one piece per maximal run of non-separators |
| Text.TrimKeepsRuns | main.js:110-113 | trimming does not change the number of maximal non-whitespace runs |
| Text.RunCountBound | main.js:113-117 | there are never more words than characters |
| Text.Utf16Length | main.js:117 | `length` in UTF-16 code units lies between the number of characters and twice that number |
| Text.Utf16LengthSlice | main.js:110-117 | a slice is never longer, in code units, than the whole string |
| Text.Utf16LengthTrim | main.js:110-117 | trimming never lengthens a string in code units |
| Text.NatToString | main.js:122 | a number is written as a non-empty string of decimal digits with no leading zero |
| Text.ParseNatToString | main.js:122 | reading the decimal text of `n` back gives `n` |
| Essay.LiveWordCount | main.js:110-114 | the live word count equals the number of maximal non-whitespace runs in the raw text, and it is 0 exactly when the text is blank |
| Essay.LiveCharCount | main.js:110-118 | the displayed character count is the code-unit length of the trimmed text; it is at most the raw text's length, at least the word count, and 0 exactly when the text is blank |
| Essay.ReadingMinutes | main.js:120-121 | minutes are 0 exactly when there are no words; otherwise 200·(m−1) < words ≤ 200·m, i.e. the ceiling of words/200 |
| Essay.ReadingLabel | main.js:121-122 | the label is "< 1 min" exactly when there are no words; otherwise it is decimal digits without a leading zero that parse back to the minute count, followed by " min" |
| Essay.OnEssayInput | main.js:109-128 | one input event shows the run count as words, the live character count (between the words and the raw length), the reading-time label of the word count ("< 1 min" exactly for blank text), and disables submit exactly when there are fewer than 50 words |
| Essay.FeedbackWordCount | main.js:174 | the feedback word count is at least 1: it is 1 for blank text (no empty guard) and equals the live word count otherwise |
| Essay.NoNonBlankPieces | main.js:175 | after splitting on runs of separators, no piece has non-blank trimmed text exactly when every character is a separator or whitespace |
| Essay.SentenceCount | main.js:175 | the sentence count equals the reference count `SentenceRuns` (one sentence per maximal terminator-free run holding a non-whitespace character), and is 0 exactly when the text holds only whitespace and `.`, `!`, `?` |
| Essay.SplitCountsSentences | main.js:175 | for every text, the non-blank pieces of the split on `[.!?]+` are exactly as many as the reference count of sentences |
| Essay.AverageSentenceLength | main.js:176 | with no sentence there is no integer average; otherwise the average `a` rounds half up: a − ½ ≤ words/sentences < a + ½ |
| Essay.AverageText | main.js:176-185 | the average is written in canonical decimal (digits, no leading zero, parsing back to the value), and no average is written "Infinity" |
| Essay.FeedbackFor | main.js:178-195 | exactly four entries. Grammar, Clarity and Suggestions are fixed. The Style entry's message frames a number with no leading zero that parses back to the average, or reads "Infinity" when there is none |
| Essay.Feedback | main.js:172-195 | the entries of a text are those for the rounded average of its feedback word count over its sentence count |
| Essay.OnSubmitClick | main.js:146-163 | a click is refused exactly when the raw text's `length` is below 50 code units; otherwise it yields the text's feedback entries |
| Essay.EnabledSubmitIsAccepted | main.js:126-153 | whenever the counter leaves submit enabled, a click is accepted, and the feedback's word count equals the counter's (at least 50) |
| Essay.BlankEssayPassesClickCheck | main.js:150-176 | 50 or more whitespace characters pass the click check; the feedback then counts 1 word where the counter counts 0, and the Style message reads "Infinity" |
| Essay.PunctuationOnlyEssayHasNoAverage | main.js:175-185 | text made only of whitespace and terminators has no sentence, and its Style message reads "Infinity" |
| Email.ValidateEmailCharacterized | main.js:291-294 | the pattern matches exactly when the text has no whitespace, exactly one '@' and not at the start, and after it a '.' that is neither the domain's first nor last character |
| Email.ValidEmailLength | main.js:291-294 | every accepted address has at least five characters, so the empty string is refused |
| Forms.Newsletter | main.js:266-286 | subscribes exactly when the address is valid (the separate presence test is redundant); otherwise the message is the invalid-address one |
| Forms.Contact | main.js:309-322 | the "fill in all fields" message exactly when a field is empty; the invalid-address message exactly when all are present and the address is invalid; success exactly when all pass |
| Forms.Signup | main.js:358-390 | each message is reported exactly when every earlier check passes and its own fails: presence, address, password length ≥ 6 code units, confirmation match, terms. Success exactly when all pass |
| Forms.Signin | main.js:398-412 | missing fields first, then the address; success exactly when the password is non-empty and the address is valid |
| Forms.SignupCredentialsSignIn | main.js:365-412 | an email and password accepted by sign-up are accepted by sign-in |
| Forms.SigninSkipsPasswordLength | main.js:375-412 | sign-in accepts a one-character password that sign-up refuses as too short |
| Forms.MalformedAddressesRefused | main.js:269-294 | every address with a second '@', or whose only '.' after the '@' comes right after it, fails the address check, and the newsletter form refuses it |
| Forms.MalformedAddressExamples | main.js:269-294 | "a@b@c.d" and "a@.bc" are refused by the newsletter form |
| Forms.SignupCountsCodeUnits | main.js:375-390 | a password of three characters above U+FFFF is six code units long, so sign-up accepts it |
| Widgets.ToggleMenu | main.js:14-17 | a hamburger click flips both `active` flags; the two flags agree afterwards exactly when they agreed before |
| Widgets.FollowNavLink | main.js:20-25 | a link click leaves both flags off, hence in agreement |
| Widgets.ToggleMenuTwice | main.js:14-17 | two hamburger clicks restore the menu |
| Widgets.ShowPrices | main.js:47-51 | every price element shows its yearly attribute when yearly and its monthly one otherwise; the attributes are kept |
| Widgets.PricingClick | main.js:39-63 | a click flips the yearly flag and the button class. Afterwards every price, period label ('/year' iff yearly) and savings element (shown iff yearly) matches the new flag |
| Widgets.PricingClickKeepsButtonInSync | main.js:37-44 | when the button's class equals the flag, as on page load, it still does after a click |
| Widgets.PricingClickTwice | main.js:39-63 | two clicks from a consistent page give back the same page |
| Widgets.FaqClick | main.js:81-91 | after a click on item i, item i is the negation of its previous state, every other item is closed, and at most one item is open |
| Widgets.FaqClickTwice | main.js:81-91 | when no other item is open, two clicks on an item restore the accordion |
| Widgets.FaqOpenClosesOthers | main.js:83-90 | opening a closed item closes the item that was open |
| Widgets.SetActive | main.js:499-502 | afterwards a button is active exactly when it is the chosen one; at most one is active |
| Widgets.SetActiveExactlyOne | main.js:499-502 | choosing one of the buttons leaves exactly that button active |
| Blog.Lower | main.js:223 | lower-casing keeps the length and maps each character on its own |
| Blog.LowerIdempotent | main.js:223-229 | lower-casing twice equals lower-casing once |
| Blog.LowerSlice | main.js:228-232 | lower-casing a slice equals slicing the lower-cased text |
| Blog.SelectedCategory | main.js:224-225 | the selection is the category of the first active button, or "all" when no button is active |
| Blog.FilterBlogs | main.js:222-237 | a card is shown exactly when its lower-cased title or excerpt contains the lower-cased term and the selection is "all" or equals its category. Every card gets `fade-in`; texts and category are kept |
| Blog.OnSearchInput | main.js:240-242 | typing filters the cards with the new term and the current selection (so each card keeps its texts and category and gets `fade-in`); buttons unchanged |
| Blog.OnCategoryClick | main.js:244-249 | after a click on button i, only button i is active, and the cards are filtered with the current term and button i's category: each is shown exactly when it matches the term and that category (or the category is "all") |
| Blog.EmptyTermMatchesEveryCard | main.js:232 | an empty search term never hides a card on search grounds |
| Blog.SearchIgnoresTermCase | main.js:223-232 | the search result does not depend on the case of the term |
| Blog.VerbatimOccurrenceMatches | main.js:228-232 | a term that occurs verbatim in the title or excerpt finds the card |
| Blog.FilterBlogsIdempotent | main.js:227-237 | filtering again with the same term and selection changes nothing |

## Left out

- DOM reads and writes, event registration, `alert`, `innerHTML` rendering of the feedback and `scrollIntoView`: these are page I/O. The model takes field values and states as parameters and returns what the handlers write.
- The `setTimeout` delays are timing only: the two-second simulated call before feedback, the success button text, colour and disabled state with their reset after the form timers, and the staggered page-load `fade-in` (main.js:508-515).
- `handleAuthSuccess` and the social-login alert are constant message strings. Success is modelled as `Ok(AccountCreated)` / `Ok(LoggedIn)`.
- Lazy image loading uses the browser's `IntersectionObserver`, so it is left out. Smooth scrolling, focus styles and `highlightActiveNavLink` depend on `window.location` and element lookups. The cookie consent block is commented out in the source.
- `addClass`, `removeClass` and `toggleClass` (main.js:487-497) are one-line null-guarded class edits that nothing in the script calls. `setActive` (main.js:499-502) is not called either; it is modelled because the category buttons (main.js:244-249) do the same thing.
- A `TypeError` from a missing `.nav-links` element after a hamburger click is not modelled; the menu record assumes both elements exist.
- The counter's own dispatch on page load (main.js:132) is one call of `Essay.OnEssayInput`, so it is not modelled separately.
- Essay.AverageSentenceLength: uses exact integer arithmetic. The script divides in floating point before rounding; the two agree for any realistic essay length.
- Blog.Lower: lower-cases only ASCII `A`–`Z`, whereas `toLowerCase` applies full Unicode case mapping.
