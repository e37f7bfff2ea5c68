# Chat app core, modelled in Dafny

The repository is a small chat web app. It has two parts.

**The Express server (index.js).** Users register and log in. Registering inserts a row with a bcrypt hash into a PostgreSQL `users` table. Logging in checks the password and issues a JSON Web Token (RFC 7519) that expires after one hour. The `authenticateUser` middleware protects `/api/user`. Every other request gets a 404, except OPTIONS requests (204, from `cors()`), GET or HEAD of a static file or of `/api/config`, and JSON bodies that do not parse (400, from the body parser).

**The browser client (public/script.js).** It keeps a chat history and sends it to a generative-language API. It post-processes each reply:

- a replacement filter hides the model's vendor;
- fenced code becomes `<pre><code>` with its body HTML-escaped.

The client also keeps a `bot-responding` flag that locks the prompt, and renders a changelog. It defines a `typingEffect` that types a reply word by word, but nothing in the page calls it: `generateResponse` sets the reply's HTML directly. The model covers `typingEffect` on its own, as the `TypingEffect` class.

This project models that core and proves its properties. The modules are:

- `Wrappers`: the optional value used for `undefined`, plus JavaScript truthiness of optional strings.
- `Strings`: the JavaScript built-ins the code relies on.
  - `split` on one character and `join`, with both round-trips.
  - `trim`, over the WhiteSpace and LineTerminator characters.
  - The regex word class `\w` and ASCII case folding.
- `Crypto`: bcrypt's `hash`/`compare` and the token library's `sign`/`verify` as abstract function values. Their laws are predicates that the lemmas require:
  - a password compares equal to its own hash;
  - a token verifies to its claims while `now < exp` and fails from then on;
  - a token contains no space.
- `Server`: the server, split into pure functions and a class.
  - Pure functions give the response and the next state of the store for `/api/register` and `/api/login`.
  - The `UsersTable` class holds the table as a map from email to (id, hash) plus the next id. Its `Register` and `Login` methods follow the handlers' early returns and are proved equal to the step functions.
  - Also here: `authenticateUser`, `/api/user`, routing with the catch-all, and a whole-server `Serve` step.
- `Html`: `escapeHtml`, and the code-fence rewrite shared by `formatCodeBlocks` and `formatStructuredResponse`.
- `Filter`: `responseFilter`. Each table entry is applied as `\bkey\b` with flags `gi`, so matching is whole-word, case-insensitive and global.
- `Chat`: the page state.
  - The `ChatSession` class covers the submit guard, the `generateResponse` bookkeeping and the stop button.
  - The `TypingEffect` class covers `typingEffect`, with one method call per interval tick.
  - Also here: the model-label rule and the logged-in layout rule.
- `Changelog`: the `formatChangelog` loop.

The server's external effects become explicit parameters:

- **Clock:** the current time in seconds.
- **Salt:** the salt bcrypt would draw at random.
- **Failures:** a `Fault` value selects where the database or `jwt.sign` throws. Those are the handlers' `catch` paths, which answer 500.
- **Static files:** the set of files `express.static` serves.
- **API key:** the `GOOGLE_API_KEY` value.

On the client, the network reply arrives as an `Outcome`: the processed reply text, or the message of the error thrown.

Three behaviours of the token check that the model states as the code has them:

- **Scheme word.** The bearer scheme is never checked. The token is whatever follows the first space (`header.split(" ")[1]`), even if the first word is not `Bearer` as section 2.1 of RFC 6750 requires.
- **Header without a space.** Such a header (no second word) is answered 403 "Unauthorized: Invalid token", the answer for a bad token, not the 401 given for a missing header.
- **Expiry boundary.** A token is rejected from the second `now >= exp` on, as section 4.1.4 of RFC 7519 requires: `exp` itself is already expired.

## Model

| member | source | states |
|---|---|---|
| Strings.Split | public/script.js:87 | `split` on one character (also used by the token check at index.js:42): at least one piece, and no piece contains the separator. |
| Strings.Join | public/script.js:87-91 | The definition of `join`: the pieces with the separator between each two. |
| Strings.JoinSplit | public/script.js:87-91 | Joining the pieces of `split(" ")` with `" "` gives the original string back. |
| Strings.SplitJoin | index.js:42 | Splitting the join of separator-free pieces gives exactly those pieces. |
| Strings.SplitSingle | index.js:42 | A split yields a single piece exactly when the separator does not occur. |
| Strings.Trim | public/script.js:229 | The result is an infix reached by removing only whitespace from the two ends. A non-empty result neither starts nor ends with whitespace. It is empty exactly when the input is all whitespace. |
| Html.EscapeHtmlIsPerChar | public/script.js:193-200 | Because `&` is replaced first, the five chained replacements equal a per-character map, so no introduced entity is escaped again. |
| Html.EscapeHtmlSafe | public/script.js:193-200 | The output contains no `<`, `>`, `"` or `'`. |
| Html.EscapeHtmlIdentity | public/script.js:193-200 | A string without any of the five special characters is returned unchanged. |
| Html.UnescapeEscapeHtml | public/script.js:193-200 | Decoding the five references gives the input back: escaping loses no information. |
| Html.EscapeEach | public/script.js:193-200 | The per-character map emits no markup character. |
| Html.NextFence | public/script.js:187 | The lazy `[\s\S]*?` stops at the first closing fence at or after the body's start. If it finds none, there is no fence from there on. |
| Html.MatchFence | public/script.js:187 | A match exists exactly when there is an opening fence at `i`, its run of word characters is followed by a newline, and a closing fence follows. The tag is then that word run, the newline follows it, and the close is the first fence after the newline. |
| Html.EscapeHtml | public/script.js:193-200 | The definition: five global single-character replacements, `&` first. What it guarantees is stated by the `EscapeHtml*` and `UnescapeEscapeHtml` lemmas. |
| Html.CodeBlock | public/script.js:187-189 | The definition of the replacement for one match: `<pre><code class="language-TAG">`, with `plaintext` for an empty tag, the body through `escapeHtml`, then `</code></pre>`. |
| Html.FormatCodeBlocks | public/script.js:186-190 | The definition of the global replacement as a scan: at each position, a match is replaced and the scan resumes after its closing fence; otherwise one character is copied. Its properties are in the lemmas below. |
| Html.FormatCodeBlocksNoFence | public/script.js:186-190 | Text without three backticks in a row is returned unchanged. |
| Html.SingleBlock | public/script.js:213-215 | A fenced block becomes `<pre><code class="language-TAG">` with its body passed through `escapeHtml`. The class is `language-plaintext` when no tag follows the fence. The text after the block is rewritten independently. |
| Html.FencePrefixCopied | public/script.js:186-190 | Text that holds no fence is copied verbatim, and the text after it is rewritten on its own. |
| Html.ProseThenBlock | public/script.js:186-190 | Prose, then a fenced block, then more text. The prose is kept, the block becomes `<pre><code>` with its body escaped, and the rest is rewritten on its own. |
| Filter.ReplaceFrom | public/script.js:112-113 | The definition of the global scan of `\bkey\b` with flags `gi`: each whole-word, case-insensitive match of the original text is replaced, and every other character is copied. |
| Filter.ReplaceWord | public/script.js:112-113 | The definition: `text.replace(regex, value)`, the scan from the start. |
| Filter.ApplyAll | public/script.js:102-114 | The definition: the table entries (`Filter.Replacements`, in `Object.entries` order) applied one after another. |
| Filter.CopyRun | public/script.js:113 | A stretch where the key never matches is copied verbatim. |
| Filter.ReplaceNoMatch | public/script.js:112-113 | A text where the key has no whole-word match is returned unchanged. |
| Filter.NonWordStep | public/script.js:112 | An all-word key cannot match at a non-word character. |
| Filter.OnlyOriginalMatches | public/script.js:112-113 | After replacing an all-word key by an all-word value, a whole-word match of another word `w` in the output can only be where `w` matched in the input and the key did not. |
| Filter.ReplaceWordRemoves | public/script.js:112-113 | No whole-word, case-insensitive match of the key survives its own replacement. |
| Filter.ReplaceWordKeepsAbsent | public/script.js:112-113 | Replacing one word never creates a whole-word match of another absent word. |
| Filter.PhraseNeedsWord | public/script.js:105-107 | A phrase key ending in `" " + w` can only match where the word `w` itself matches. |
| Filter.ResponseFilter | public/script.js:101-116 | The loop applies the table entries in their listed order. Its result contains no whole-word "Google" or "Gemini". |
| Filter.PhrasesNeverMatch | public/script.js:103-107 | The three phrase entries end in "Google", which the first entry has already removed. So they never fire, and the filter is the two word replacements alone. |
| Filter.FilterRemovesNames | public/script.js:102-114 | No whole-word, case-insensitive "Google" or "Gemini" survives the filter. |
| Filter.FilterIdentity | public/script.js:102-114 | A text with no whole-word "Google" or "Gemini" is returned unchanged. |
| Server.RegisterStep | index.js:62-86 | Each branch, with its status and message: a falsy email or password gives 400 "Email and password are required"; an existing email gives 400 "User already exists" for any password; a failing SELECT, or a failing INSERT for a new email, gives 500 "User registration failed". All of these leave the store unchanged. Status 201 happens exactly for a new, truthy email and a truthy password, with neither the SELECT nor the INSERT failing. It adds the one row (next id, `hash(password, 10, salt)`), advances the sequence, keeps every other row, and returns only `{id, email}`. |
| Server.LoginStep | index.js:89-119 | Each branch: a falsy field gives 400 "Email and password are required"; a failing SELECT gives 500 "Login failed"; an unknown email or a wrong password gives 400 "Invalid email or password"; a failing `jwt.sign` after a correct password gives 500 "Login failed". Status 200 holds exactly when the email exists, `compare(password, storedHash)` holds and nothing throws. The token is signed over the row's `{id, email}`, issued now, expiring 3600 s later. Every 400 is "Email and password are required" or "Invalid email or password", and no failure carries a payload. |
| Server.RegisterKeepsValid | index.js:70-79 | Registration keeps the table well formed: emails non-empty, ids drawn from the sequence, no two rows with one id. |
| Server.RegisterTwice | index.js:70-73 | A first registration answers 201 with the new id. A second registration of the same email answers 400 "User already exists" whatever the password, and changes nothing. |
| Server.LoginDoesNotRevealAccounts | index.js:97-106 | An unknown email and a wrong password get the identical 400 "Invalid email or password". |
| Server.LoginAfterRegister | index.js:75-114 | Given bcrypt's law, logging in right after registering with the same password succeeds. The token's claims are the new id and email, and expiry is issue time plus 3600. |
| Server.BearerToken | index.js:42 | Absent exactly when the header has no space, and a present value contains no space. That the value is the second space-separated word is what `Server.BearerTokenOf` proves. |
| Crypto.IssueClaims | index.js:108-112 | The payload `jwt.sign` signs: the row's id and email, issued at the current second, with `exp - iat` equal to the one-hour lifetime of 3600 seconds. |
| Server.BearerTokenOf | index.js:42 | For any scheme word, the word after the first space is the token that gets verified. |
| Server.Authenticate | index.js:35-49 | An absent or empty header gives 401 "Unauthorized: No token provided". Access is granted exactly when the second word is non-empty and verifies, and then the decoded claims are passed on verbatim. Every rejection of a truthy header is exactly 403 "Unauthorized: Invalid token". |
| Server.UserRoute | index.js:52-54 | Status 200 "User authenticated" with `req.user` exactly when the middleware grants access. Otherwise the middleware's 401 or 403. |
| Server.IssuedTokenAuthenticates | index.js:42-53 | Given the token law, a login token sent after any scheme word authenticates as `{id, email}` of the matched row while `now < issue + 3600`, and is 403 from then on. |
| Server.NoSecondWordRejected | index.js:42-44 | A header with no space is rejected with 403, not 401. |
| Server.Route | index.js:10-124 | Each endpoint is characterised exactly, in registration order. `cors()` takes every OPTIONS request. Then come the static files, then `/api/config`. A body that does not parse is refused next. Then `/api/user`, `/api/register` and `/api/login`, each tied to its own path. Register and login answer only POST, and the other two routes only GET or HEAD. Everything else falls through to the 404. |
| Server.NotFound | index.js:122-124 | The catch-all answers 404 "Route not found". |
| Server.Serve | index.js:10-124 | Only a registration can change the store. A static path gets no JSON response. OPTIONS gets 204. A body that does not parse gets 400. `/api/config` returns the key. Every unmatched request gets the 404 with the store unchanged. |
| Server.ConfigBeforeBodyParser | index.js:16-52 | `/api/config` answers even when the body does not parse, because it is registered before the parser. The same body sent to `/api/user` is refused with 400. |
| Server.ServeKeepsValid | index.js:62-124 | Any request keeps the table well formed. |
| Server.UsersTable.Register | index.js:62-86 | The handler's early returns and INSERT, on the table's fields, produce exactly `RegisterStep`'s response and new table, and keep the table valid. |
| Server.UsersTable.Login | index.js:89-119 | The handler reads the table without changing it and returns exactly `LoginStep`'s response. |
| Chat.UserEntry | public/script.js:123-126 | The user entry has role "user" and text part `userData.message`. It has an `inline_data` part exactly when `file.data` is truthy, holding the file's properties minus exactly `fileName` and `isImage`. |
| Chat.Exchange | public/script.js:123-165 | One call appends the user entry, then a model entry with the reply only when `API_KEY` is truthy and the request succeeded. |
| Chat.BotText | public/script.js:129-174 | The bot message shows "API Key not loaded. Please refresh the page." when the key is falsy. Otherwise it shows the reply, or the error's message. |
| Chat.ExchangeKeepsHistory | public/script.js:123-165 | Every exchange keeps each model entry right after a user entry, and adds exactly one user turn. |
| Chat.UserTurns | public/script.js:123 | The number of user entries in the history, never more than its length. |
| Chat.UserTurnsSnoc | public/script.js:123 | Pushing one entry adds one user turn exactly when its role is "user". |
| Chat.WellFormedSnoc | public/script.js:123-165 | A pushed user entry, or a model entry pushed right after a user entry, keeps every model entry answering the user entry before it. |
| Chat.ChatSession.LoadConfig | public/script.js:50-56 | The config fetch sets `API_KEY` to the served `googleApiKey` and changes nothing else. |
| Chat.ChatSession.Submit | public/script.js:227-234 | An empty trimmed message, or a submit while `bot-responding` is set, changes nothing. Otherwise it stores the trimmed message, clears the input, and sets `bot-responding` and `chats-active`. |
| Chat.ChatSession.GenerateResponse | public/script.js:119-181 | It appends exactly `Exchange` to the history and keeps it well formed. On every path it displays `BotText`, clears `bot-responding` and resets `userData.file` to `{}`. |
| Chat.ChatSession.Stop | public/script.js:268-272 | It clears `bot-responding` and changes nothing else. |
| Chat.Typed | public/script.js:87-91 | The definition of the text shown after `k` words: the first `k` words joined by spaces. |
| Chat.TypedIsPrefix | public/script.js:87-91 | The words emitted so far form a prefix of the text, and all of them give the text back. |
| Chat.TypingEffect.Tick | public/script.js:89-98 | The shown text stays a prefix of `text`. `wordIndex` grows by one per tick up to `words.length` and never decreases. The interval is cleared only when every word is out, and then the shown text equals `text`. That final tick removes `bot-responding` from the session; no other part of the session changes. A cleared interval gets no further ticks. |
| Chat.InitialModel | public/script.js:19 | The stored model when it is truthy, otherwise "gemini-1.5-flash". |
| Chat.ModelLabel | public/script.js:38 | "Gemini 1.5 Flash" exactly for "gemini-1.5-flash"; any other model is labelled "Gemini 2.0 Flash". |
| Chat.Visibility | public/script.js:396-409 | With a truthy stored token, logout and the chat are shown and login and register hidden. Without one, the reverse. |
| Changelog.Items | public/script.js:334 | One `<li>` item per change, in order, each being the change wrapped in `<li>` tags. |
| Changelog.Section | public/script.js:331-336 | The definition of the text one version appends: the template literal with its line breaks and indentation. |
| Changelog.Sections | public/script.js:330-337 | The definition of the sections of a list of versions, first version first. |
| Changelog.SectionsConcat | public/script.js:330-337 | Each version's section is independent of the others: the sections of two lists concatenate. |
| Changelog.ItemsConcat | public/script.js:334 | The change items of two lists concatenate. |
| Changelog.FormatChangelog | public/script.js:328-339 | The loop builds the heading followed by every version's section, in list order. |

## Left out

- Network and storage I/O are not modelled. This covers:
  - the `fetch` calls to `/api/config`, the generative-language API and `changelog.json`;
  - the `pg` pool, its queries and SSL settings;
  - CORS, `app.listen` and the `dotenv` environment.
- The database appears only as the table map; its failures are the `Fault` parameter.
- Library internals are not modelled: bcrypt's Blowfish and the HMAC and base64url encoding of tokens. Only their laws are stated (`HashLaw`, `TokenLaw`).
- Concurrency is not modelled, because the model runs one request or event at a time. This omits:
  - the check-then-insert race between two concurrent registrations;
  - a stop or a new submit arriving while a request is in flight. `GenerateResponse` is one atomic step, and an abort reaches it as a failed `Outcome`.
- Server.UsersTable.Register: a failed INSERT leaves the id sequence where it was. PostgreSQL may already have consumed a value by then, so the model is a simplification here. It is harmless: ids stay unique either way.
- Server.Route: matching uses ASCII case folding and one optional trailing slash. It does not model:
  - Express's full path-to-regexp behaviour;
  - query-string stripping, since the path is given without its query;
  - the rules by which `express.static` decides which files exist.
- Server.Route: `cors()` is modelled only as ending OPTIONS requests with 204. The CORS headers it adds to every response are not modelled.
- Server.Serve: of the body parser's errors only the unparsable JSON body (400) is modelled. Too large a body (413) and an unsupported charset (415) are not, and neither is the HTML page Express's error handler sends: only its status and status text are kept.
- Request bodies are treated as strings. Non-string JSON values for `email` or `password` are not modelled.
- Chat.TypingEffect.Tick: removing `loading` from the bot message is a DOM effect and is not modelled. Only the `bot-responding` flag it clears is.
- Chat.ChatSession.LoadConfig: a failed config fetch is the method not being called, which leaves `API_KEY` as "".
- Chat.UserEntry: the attached file's properties are modelled as strings; `isImage` is a boolean in the page.
- The reply's parsing path (`data.candidates[0]...`) and the bold strip at public/script.js:145 are not modelled, because they depend on a JSON shape from outside. The reply enters as the already processed text of an `Outcome`.
- The bold, bullet and numbered-list passes of `formatStructuredResponse` (public/script.js:204-210) are not modelled. Only its code-fence step is, which is the same rewrite as `formatCodeBlocks`.
- DOM effects are kept only as the flags and strings they produce. Left out are `innerHTML` and `classList` updates, scrolling, `hljs` highlighting, the lottie markup, popups, the theme toggle, `localStorage`, `alert` and `prompt`.
- Timers are not modelled. The 40 ms typing interval, the 600 ms submit delay and the 500 ms popup delays are discrete steps.
- The model descriptions text (public/script.js:15-18) that `updateDropdownText` displays is left out; only the label rule is modelled.
- Changelog fields are modelled as strings. A numeric `version` or `date` would be rendered by JavaScript's number-to-string conversion.
- Html.FormatCodeBlocksNoFence and Html.SingleBlock describe the rewrite by its two basic cases: no fence, and one block followed by any text. Overlapping and unterminated fences are covered by `FormatCodeBlocks` itself and have no separate lemma.
