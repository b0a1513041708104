# YelpCamp route logic in Dafny

YelpCamp is an Express/MongoDB application for listing campgrounds. This project
models the decision logic inside two of its routers. The web, database, mail,
geocoding and password-hashing layers are replaced by plain inputs and outputs.

- **Campground routes** (`routes/campgrounds.js`):
  - the index page: page-number defaulting with JavaScript's `parseInt`, skip/limit paging, the page count and the "no match" notice;
  - `escapeRegex` and the case-insensitive `$regex` search it feeds;
  - the geocoder guard of the create and update routes;
  - the like toggle, as a class holding the `likes` sequence.
- **User routes** (`routes/index.js`):
  - the admin code of registration;
  - the password-reset token lifecycle (issue on `/forgot`, check on `GET /reset/:token`, consume on `POST /reset/:token`), both as functions of the user table and as a `UserStore` class whose methods change it;
  - the profile page's filter of listings by author.

Modules:

| file | module | contents |
|---|---|---|
| `wrappers.dfy` | `Wrappers` | `Option` |
| `domain.dfy` | `Domain` | user ids, authors, listings |
| `search_pattern.dfy` | `SearchPattern` | `escapeRegex`, and the fragment of PCRE that its output lands in |
| `page_query.dfy` | `PageQuery` | `parseInt` without a radix, and the page number |
| `campground_routes.dfy` | `CampgroundRoutes` | index, create, update, like |
| `hex.dfy` | `Hex` | `Buffer.toString("hex")` and its inverse |
| `index_routes.dfy` | `IndexRoutes` | register, forgot/reset, profile |

Conventions:

- A JavaScript `undefined`, a missing form field and a failed lookup are `None`.
- A route that throws inside a callback ends in a `...Crashed` outcome.
- The clock (`Date.now()`), the random bytes, the geocoder's reply, the password library's hash and the schema default of `isAdmin` are parameters.

## Model

| member | source | states |
|---|---|---|
| SearchPattern.Escape | routes/campgrounds.js:221-223 | the escaped text is one backslash longer per character in the listed set or in `\s` |
| SearchPattern.EscapeConcat | routes/campgrounds.js:221-223 | each character is replaced on its own and the text keeps its order: escaping a concatenation concatenates the escapes |
| SearchPattern.EscapeCharParses | routes/campgrounds.js:222 | one replaced character (`\$&` or the character itself) reads back as that character taken literally |
| SearchPattern.EscapeParsesAsLiterals | routes/campgrounds.js:221-223 | the escaped text is a pattern of literal characters only, exactly the raw text: no character of the search acts as an operator |
| SearchPattern.EscapedSearchIsSubstring | routes/campgrounds.js:26-27 | a name matches the escaped pattern with the `i` flag iff the raw text occurs in it, ignoring ASCII case |
| SearchPattern.DotSearchExample | routes/campgrounds.js:26 | searching "a.b": the raw pattern would match "axb creek"; the escaped one matches "a.b ranch" and not "axb creek" |
| PageQuery.ParseIntDecimal | routes/campgrounds.js:23 | `parseInt` reads every decimal rendering of an integer, sign included, back as that integer |
| PageQuery.PageNumberDefaults | routes/campgrounds.js:23-24 | a missing or unparsable page, or page 0, is page 1; any other integer, a negative one included, is kept |
| CampgroundRoutes.PageThree | routes/campgrounds.js:23-24 | `?page=3` is page 3 |
| CampgroundRoutes.FindWindow | routes/campgrounds.js:28-29 | skip/limit: refused for a negative skip; otherwise at most 8 listings, exactly the candidates from the skip offset on |
| CampgroundRoutes.PageCount | routes/campgrounds.js:45 | the page count is the ceiling of count / 8: the least number of 8-listing pages that hold them all |
| CampgroundRoutes.SearchIsSubstringFilter | routes/campgrounds.js:26-27 | the search finds exactly the listings whose name contains the raw search text, in store order |
| CampgroundRoutes.NamesContainingMembers | routes/campgrounds.js:27 | a listing is among the search candidates iff it is stored and its name contains the text |
| CampgroundRoutes.IndexBrowse | routes/campgrounds.js:51-72 | without a search, page p shows the listings from 8p - 8 on, at most 8; the page count counts all listings; no "no match" notice |
| CampgroundRoutes.IndexSearch | routes/campgrounds.js:25-50 | with a search the server accepts (no NUL character, no line or paragraph separator), the same window over the matching listings; the page count still counts all listings; "no match" iff the window is empty |
| CampgroundRoutes.IndexSearchRefusedCrashes | routes/campgrounds.js:26-38 | a search text holding a NUL character, U+2028 or U+2029 keeps it through escaping, the pattern is refused, and the search branch throws on `.length` on every page |
| CampgroundRoutes.EscapeKeepsChar | routes/campgrounds.js:222 | escaping adds only backslashes: any other character occurs in the escaped text iff it occurs in the search text |
| CampgroundRoutes.EscapeKeepsSendable | routes/campgrounds.js:222 | the escaped search text can be sent to the server iff the raw text can |
| CampgroundRoutes.FindMatching | routes/campgrounds.js:27-29 | the search find fails exactly for a negative skip or a pattern that cannot be run: the driver refuses a NUL character, and PCRE refuses the `\u2028`/`\u2029` escapes the RegExp source holds for U+2028/U+2029; otherwise it gives only stored listings whose name the pattern matches |
| CampgroundRoutes.SearchCandidates | routes/campgrounds.js:27 | the search gives only stored listings whose name the pattern matches; exactly the substring filter by SearchIsSubstringFilter |
| CampgroundRoutes.Skip | routes/campgrounds.js:28 | the skip is negative exactly for pages below 1, which is when the find is refused |
| PageQuery.ParseInt | routes/campgrounds.js:23 | a text without a decimal digit is NaN, and a negative result needs a minus sign; reading back every decimal rendering is ParseIntDecimal |
| PageQuery.PageNumber | routes/campgrounds.js:23-24 | the page number is never 0 (it is truthy); its cases are PageNumberDefaults |
| CampgroundRoutes.Index | routes/campgrounds.js:18-74 | only a search can crash the route; a rendered page has a nonzero page number and counts all listings; the rest is IndexBrowse, IndexSearch, IndexSearchRefusedCrashes, IndexNegativePage |
| CampgroundRoutes.IndexPage | routes/campgrounds.js:22-73 | the route crashes iff a search meets a page below 1 or a refused pattern; a rendered page shows the given page number, counts all listings and shows only stored listings |
| CampgroundRoutes.IndexNegativePage | routes/campgrounds.js:23-38 | a negative page is kept; the find is refused, so the search branch throws on `.length` and the plain branch renders no campgrounds |
| CampgroundRoutes.NoMatchOnlyForEmptySearch | routes/campgrounds.js:38-41 | the "no match" notice appears only for a search whose page is empty |
| CampgroundRoutes.SeventeenListingsExample | routes/campgrounds.js:22-45 | 17 listings and `?page=3`: one listing, the 17th, on page 3 of 3 |
| CampgroundRoutes.CreateCampground | routes/campgrounds.js:79-106 | a campground is created iff the geocoder gave no error and at least one result; its author is the user's id and username, its fields are the form's, its place is the first result's |
| CampgroundRoutes.UpdateAsWritten | routes/campgrounds.js:151-176 | as written, the route throws iff the geocoder gave no error and an empty list, and reports an invalid address iff it gave an error |
| CampgroundRoutes.UpdateCrashesOnEmptyResult | routes/campgrounds.js:152-157 | as written, an address with no results and no error makes the update route throw |
| CampgroundRoutes.UpdateCampground | routes/campgrounds.js:151-160 | the update never crashes; it is applied iff the address resolved, with the first result's place |
| CampgroundRoutes.UpdateDiffersOnlyOnEmptyResult | routes/campgrounds.js:152-160 | the written and the intended update route differ on exactly the empty, error-free reply |
| CampgroundRoutes.Pulled | routes/campgrounds.js:205 | `pull` leaves no occurrence of the user and never lengthens the list |
| CampgroundRoutes.PulledConcat | routes/campgrounds.js:205 | `pull` works element by element: the other ids keep their relative order |
| CampgroundRoutes.PulledCounts | routes/campgrounds.js:205 | `pull` removes every occurrence of the user and keeps every other id as often as before |
| CampgroundRoutes.PulledAbsent | routes/campgrounds.js:205 | pulling an absent user changes nothing |
| CampgroundRoutes.PulledNoDuplicates | routes/campgrounds.js:205 | `pull` keeps a duplicate-free list duplicate-free |
| CampgroundRoutes.Toggled | routes/campgrounds.js:199-209 | the user's membership flips; when the user had not liked it, the old likes stay in front and one id is appended; a pull otherwise (Pulled, PulledCounts) |
| CampgroundRoutes.ToggleFlips | routes/campgrounds.js:199-209 | a toggle flips the user's membership and keeps the list duplicate-free |
| CampgroundRoutes.ToggleTwice | routes/campgrounds.js:199-209 | on a duplicate-free list two toggles restore membership and length, and restore the list itself when the user had not liked it |
| CampgroundRoutes.Campground.HasLiked | routes/campgrounds.js:199-201 | `likes.some(like => like.equals(user))` is true iff the user is in the likes |
| CampgroundRoutes.Campground.ToggleLike | routes/campgrounds.js:199-211 | the likes become the toggled likes: the user's membership flips and a duplicate-free list stays so |
| Hex.Encode | routes/index.js:76 | two lower-case hex digits per byte |
| Hex.DecodeEncode | routes/index.js:76 | the hex token spells its bytes: decoding gives them back |
| IndexRoutes.NewUser | routes/index.js:22-31 | the new user has the given id, the form's username, names, avatar and email, the library's credential and no pending reset; it is an admin when the code is exactly "SilverFreak", and otherwise keeps the schema default |
| IndexRoutes.AdminCodeIsExact | routes/index.js:29 | a code that differs in case, "silverfreak", does not make an admin |
| IndexRoutes.FindOne | routes/index.js:137-141 | the lookup gives the first user in store order that the filter selects, or none when no user matches |
| IndexRoutes.Forgot | routes/index.js:71-134 | no user changes in number; "no account" iff no user has the address, and then nothing changes; otherwise the mail goes to that address with the hex of the random bytes; the rest is ForgotIssuesToken |
| IndexRoutes.ForgotUnknownEmail | routes/index.js:81-85 | an unknown address changes no user |
| IndexRoutes.ForgotIssuesToken | routes/index.js:75-88 | a known address: 40 lower-case hex digits that spell the 20 random bytes, stored on that user with expiry now + 3600000; the mail goes to that address; no other user changes |
| IndexRoutes.IssuedTokenLifetime | routes/index.js:88-141 | the holder's record passes the check iff the clock is before its expiry (at exactly the expiry it fails), and before the expiry the token validates |
| IndexRoutes.IssuedTokenValidatesIff | routes/index.js:88-141 | when no other user already held the new token, it validates iff the clock is before its expiry: at exactly the expiry it is invalid |
| IndexRoutes.ValidateIff | routes/index.js:137-146 | a token validates iff some user holds it with an expiry after now |
| IndexRoutes.Reset | routes/index.js:152-215 | "invalid" iff no user holds the token unexpired; a change needs equal passwords and clears the holder's token; any other answer changes nothing; the rest is ResetConsumes, ResetIsSingleUse |
| IndexRoutes.ResetInvalidToken | routes/index.js:156-168 | an invalid or expired token changes no user |
| IndexRoutes.ResetMismatch | routes/index.js:169-183 | differing passwords change no user: password, token and expiry stay |
| IndexRoutes.ResetConsumes | routes/index.js:169-176 | a successful reset sets the new credential on the token's holder and clears both reset fields; every other field of the holder, `isAdmin` included, and every other user stay as they were |
| IndexRoutes.ResetIsSingleUse | routes/index.js:156-174 | after a successful reset the token never validates again and a second reset with it changes nothing |
| IndexRoutes.ResetFieldsStayPaired | routes/index.js:87-172 | issuing and consuming keep a token set exactly when its expiry is |
| IndexRoutes.ResetLifecycle | routes/index.js:71-182 | a reset requested for a known address and completed within the hour logs that user in, and, when no other user already held the new token, the token is dead afterwards |
| IndexRoutes.UserStore.FindUser | routes/index.js:156-161 | the scan of the user table finds what the lookup specifies |
| IndexRoutes.UserStore.PostForgot | routes/index.js:71-93 | the table and the answer are those of the forgot step |
| IndexRoutes.UserStore.GetReset | routes/index.js:136-150 | the reset form is shown iff some user holds the token with an expiry after now |
| IndexRoutes.UserStore.PostReset | routes/index.js:152-185 | the table and the answer are those of the reset step |
| IndexRoutes.AuthoredBy | routes/index.js:224-227 | the profile lists only stored listings by that user |
| IndexRoutes.AuthoredByComplete | routes/index.js:224-227 | every listing by that user is on the profile, and the store order is kept |
| IndexRoutes.ProfileAsWritten | routes/index.js:218-240 | as written, the route throws iff the id is well-formed but matches no user, and goes home iff the lookup failed |
| IndexRoutes.ProfileCrashesOnMissingUser | routes/index.js:219-226 | as written, a well-formed id of no user makes the profile route throw |
| IndexRoutes.Profile | routes/index.js:218-240 | the profile never crashes; it is shown iff the user was found, and lists exactly the listings whose author id is that user's |
| IndexRoutes.ProfileDiffersOnlyOnMissingUser | routes/index.js:219-226 | the written and the intended profile route differ exactly on a missing user |

## Left out

- The ownership and login middleware (`isLoggedIn`, `checkCampgroundOwnership`) are not part of this model, so no owner or admin rule is stated. The routes are modelled as reached with a logged-in user.
- `routes/comments.js` and `app.js` are not part of this model. They hold store glue and process wiring, with no decision logic of their own.
- The landing, login, logout, new, show, edit and destroy routes are not modelled. They only render, authenticate or delete.
- Outbound mail through nodemailer is not modelled. The forgot outcome names the recipient and the token the mail carries. The confirmation mail after a reset is left out.
- Flash messages, redirects and template rendering are reduced to the outcome datatypes.
- Geocoding is a parameter (`GeocodeReply`), and its coordinates are reals that are only copied, not floats.
- PageQuery.ParseInt: reads arbitrarily long digit runs exactly. JavaScript's `parseInt` rounds values beyond 2^53 to doubles, and `Infinity`-sized results are not modelled.
- Query parameters that the query parser turns into arrays (a repeated key) or objects (a bracket key such as `search[a]=b`) are not modelled; for `search`, `escapeRegex` then throws at `text.replace`. `search` and `page` are taken as single strings.
- Store failures are not modelled: the count, save, create and findByIdAndUpdate calls succeed. Two query errors are kept: MongoDB's refusal of a negative skip, and the refusal of a search pattern holding a NUL character (by the driver) or U+2028/U+2029 (by PCRE, which rejects the `\u` escapes the RegExp source holds for them); `escapeRegex` passes all three through.
- CampgroundRoutes.Campground.ToggleLike: assumes the campground was found. A missing id yields a null campground, and the route then throws.
- CampgroundRoutes.Campground.ToggleLike: the `push` of the whole user document is modelled as pushing its id, which is what the likes array stores.
- The uniqueness checks of `User.register` are not modelled. The password library decides them, and `NewUser` only builds the account.
- `models/user.js` is not part of this model. The default of `isAdmin` is a parameter of `NewUser`.
- The password library's hashing (`setPassword`) is a parameter. A failure leaves the old credential in place, and the route ignores it and still clears the token.
- SearchPattern.Fold: case folding covers ASCII letters only. PCRE's caseless matching of other letters is not modelled.
- SearchPattern.ParsePattern: only the fragment of patterns needed to read escaped text is parsed: literals, escaped punctuation and `.`. Raw patterns with classes, groups, repetitions or anchors are outside it, and the route never builds them.
- An error from `crypto.randomBytes` is not modelled. The 20 bytes are a parameter.
- Concurrency is not modelled. The likes and the reset fields are read, changed and saved without isolation.
- IndexRoutes.ResetIsSingleUse: assumes no other user holds the same token. Tokens are random, so two users could hold the same one.
- IndexRoutes.ResetLifecycle: assumes no other user already holds the newly issued token, for the same reason.
- IndexRoutes.IssuedTokenValidatesIff: assumes no other user already holds the newly issued token; another holder with a later expiry would still validate it at the issued token's expiry. IssuedTokenLifetime states the expiry for the holder's own record without that premise.
- CampgroundRoutes.UpdateAsWritten, CampgroundRoutes.UpdateCampground, IndexRoutes.Forgot: form values are taken as plain strings. The body parser is configured with `extended: true` in `app.js`, so a form can send nested objects and arrays, and the model does not capture that. The update route passes the whole `campground` object to `findByIdAndUpdate`, so `campground[author][id]` can rewrite the author the create route captured, and `campground[likes][]` can store duplicate likes, which breaks the premise of ToggleTwice. A request without `campground` throws before the update. On `/forgot`, `email[$ne]=x` turns the lookup into an operator query that selects some user, who then gets a token although no user has that address.

## Findings

| source | as written | input that shows it | evidently intended | confidence | as-written member | corrected member |
|---|---|---|---|---|---|---|
| routes/campgrounds.js:153-156 | an empty geocoder result with no error logs `err.message` while `err` is null, which throws | an address for which the geocoder returns `null, []` | report "Invalid address" and go back, as the create route does | high, not executed | CampgroundRoutes.UpdateCrashesOnEmptyResult | CampgroundRoutes.UpdateCampground |
| routes/index.js:219-226 | a well-formed id that matches no user is not an error, and the route reads `foundUser._id` of null | `GET /users/<unused ObjectId>` | send the visitor home with "Something went wrong.", as for a lookup error | high, not executed | IndexRoutes.ProfileCrashesOnMissingUser | IndexRoutes.Profile |
