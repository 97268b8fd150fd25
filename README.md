# Admin login guard, captcha cookie and product gallery

A Dafny model of three pieces of the software-resale site:

- **The admin login guard** (`authorize` in `src/lib/auth.ts`). It checks one login attempt in a fixed order: all fields present, captcha cookie present, captcha signature valid, captcha answer right (ignoring case), user known, account not locked, password right. A wrong password updates the user's failure counter, last attempt time and lockout time. Five failures inside the five-minute window lock the account for an hour. A right password clears all three. Module `Auth`, file `auth.dfy`. The store is class `AdminStore`, and its method `Authorize` follows the source step by step. `Authorize` is proved equal to the pure function `Attempt`, and the properties are lemmas about `Attempt` and about `Step` (the part after the user record is found).
- **The captcha cookie** (`src/app/api/auth/captcha/route.ts` and `verify` in `src/lib/auth.ts`). The issuer stores `lower(text) + "." + hmac(secret, lower(text))` in the `auth-captcha` cookie. The guard splits the value at `.` and checks the tag. Module `Captcha`, file `captcha.dfy`.
- **The product gallery** (`src/components/ProductGallery.tsx`). Prev/next navigation wraps around the image list, driven by `indexOf`. The component holds two fields, the active image and whether the full-screen preview is open; key and click handlers change them. Module `Gallery`, file `gallery.dfy`. The pure index functions come with lemmas; the class `GalleryView` holds the two fields.

`wrappers.dfy` holds `Option` (JavaScript's `undefined`/`null`) and `Result` (a returned value or a thrown `Error`).

Parameters stand in for everything outside the model:
- HMAC-SHA256 is a function argument of type `Captcha.Hmac`. It returns lower-case hex (`digest('hex')`), so a tag never contains `.`.
- `bcrypt.compare` is a function argument of type `Auth.PasswordCheck`.
- The challenge text from `svg-captcha` is an arbitrary string.
- The `auth-captcha` cookie is an `Option<string>` and `NEXTAUTH_SECRET` is an `Option<string>`.
- The clock is an integer `now` in milliseconds.
- The Prisma `AdminUser` table is a `map` from email to record.

Two points where the code's behaviour differs from what its own comments suggest; the model follows the code:
- The comment at `src/lib/auth.ts:51-53` says that, for safety, a missing user should not be revealed, while allowing a specific error for the demo. The code reveals it: an unknown email throws `账号或密码错误` (`:54`), while a wrong password throws `密码错误次数过多，账户已锁定1小时` (`:95`) or `密码错误，还剩 N 次尝试机会` (`:97`). So a caller can tell whether an account exists. `Auth.MessageInjective` proves that no two errors share a message.
- The comment at `src/lib/auth.ts:80` speaks of the fifth failure, while the test at `:81` is `>= 5`. The two agree on consistent records, because `Auth.CounterNeverExceedsFive` shows the counter never passes 5.

## Model

| member | source | states |
|---|---|---|
| Captcha.Lower | src/lib/auth.ts:41 | `toLowerCase` keeps the length and lower-cases each character |
| Captcha.LowerEqualIff | src/lib/auth.ts:41 | two texts have the same lower-case form exactly when they differ only in the case of letters (both directions) |
| Captcha.SplitAt | src/lib/auth.ts:34 | splitting at the first separator: the first part is free of it, and the parts joined around the separator give back the input; with no separator the input comes back whole |
| Captcha.SplitAtJoin | src/lib/auth.ts:34 | a separator-free text, the separator and any rest split back into exactly that text and that rest |
| Captcha.SplitCookie | src/lib/auth.ts:34 | `split('.')` destructured into `[text, signature]`: the text is the first piece; the signature is the second piece, free of `.`, followed only by further pieces; it is undefined exactly when the value holds no `.` |
| Captcha.SecretOf | src/lib/auth.ts:35 | the secret is `NEXTAUTH_SECRET` when set and non-empty, else `default-secret-key`; it is never empty |
| Captcha.Verify | src/lib/auth.ts:8-11 | the check passes exactly when the signature is present and equals the HMAC tag of the text under the secret |
| Captcha.Sign | src/app/api/auth/captcha/route.ts:7-9 | the hex HMAC tag of the text under the secret; it has no contract of its own, and `Captcha.Verify`, `Captcha.IssuedCookieSplits` and `Captcha.IssuedCookieAccepted` state what it is used for |
| Captcha.AnswerMatches | src/lib/auth.ts:41 | the cookie text equals the lower-cased answer; no contract of its own: `Captcha.IssuedCookieAccepted` and `Captcha.OtherAnswerRefused` show it holds exactly for the case variants of the challenge text |
| Captcha.VerifyOtherSecret | src/lib/auth.ts:8-11 | a tag made under one secret passes under another exactly when the two secrets tag the text alike |
| Captcha.HeaderCarriesValue | src/app/api/auth/captcha/route.ts:28 | the Set-Cookie header names `auth-captcha`, carries the issued value unchanged up to its own `;`, and ends `Path=/; HttpOnly; SameSite=Strict; Max-Age=300` |
| Captcha.IssueCookieValue | src/app/api/auth/captcha/route.ts:22-24 | the issued value `lower(text) + "." + tag`; no contract of its own: `Captcha.IssuedCookieSplits` proves it parses back into the lower-cased text and its tag |
| Captcha.SetCookieHeader | src/app/api/auth/captcha/route.ts:28 | the `Set-Cookie` template; no contract of its own: `Captcha.HeaderCarriesValue` and `Captcha.IssuedHeaderAccepted` show what the browser reads from it |
| Captcha.IssuedHeaderAccepted | src/app/api/auth/captcha/route.ts:22-28 | for challenge text with neither `.` nor `;`, the header the endpoint sends carries exactly the issued value, and that value passes the guard's signature check (`src/lib/auth.ts:34-39`) under the same secret expression |
| Captcha.IssuedCookieSplits | src/app/api/auth/captcha/route.ts:22-24 | for challenge text without `.`, the issued value splits into the lower-cased text and its tag (issue/parse round trip) |
| Captcha.IssuedCookieAccepted | src/app/api/auth/captcha/route.ts:22-24 | under either secret configuration the issued cookie verifies with the same secret expression, and every case variant of the challenge text is accepted as the answer |
| Captcha.OtherAnswerRefused | src/lib/auth.ts:41-43 | an answer that is not a case variant of the challenge text fails the answer check |
| Auth.WaitMinutes | src/lib/auth.ts:59 | the reported wait is the remaining lockout time rounded up to whole minutes, and is at least one |
| Auth.NextCount | src/lib/auth.ts:71-78 | after a wrong password the count is at least one, and is either 1 or the old count plus one |
| Auth.FailureError | src/lib/auth.ts:94-98 | a count of five or more gives the lockout error; below five it gives the wrong-password error, whose remaining attempts are 5 minus the count and lie in 1..4 |
| Auth.AfterFailure | src/lib/auth.ts:66-92 | the record a wrong password writes: identity and hash kept, the attempt time is `now`, a count of five or more locks the account at `now`, a smaller count keeps the old lockout |
| Auth.AfterSuccess | src/lib/auth.ts:102-109 | the reset record; no contract of its own: `Auth.SuccessResets` gives the zeroed fields and that resetting again changes nothing, `Auth.FreshConsistent` that it satisfies the record invariant |
| Auth.Step | src/lib/auth.ts:57-115 | the part after the user is found: only the counter fields of the record change, the login succeeds exactly when the account is unlocked and the password is right, and then returns (id, email, name), and a locked record is not written |
| Auth.Attempt | src/lib/auth.ts:22-116 | one whole attempt: the set of stored emails is unchanged, every record except the submitted email's is unchanged, and a success leaves that record with a zero count and no lockout |
| Auth.AdminStore.constructor | src/lib/auth.ts:46-48 | the store holds the given records, keyed by email, as the table `findUnique` reads |
| Auth.AdminStore.Authorize | src/lib/auth.ts:22-116 | the imperative guard returns exactly the result of `Attempt`, and leaves the store as `Attempt` says |
| Auth.MissingInputRejected | src/lib/auth.ts:23-25 | a missing or empty email, password or captcha fails with the "please enter" error and no store change, whatever the cookie, store and password check |
| Auth.NoCookieRejected | src/lib/auth.ts:28-32 | with no captcha cookie the attempt fails as expired, whatever the credentials, and writes nothing |
| Auth.CaptchaRejected | src/lib/auth.ts:34-43 | a signature that is not the tag of the cookie text fails as invalid; a valid one whose text is not the lower-cased answer fails as wrong; neither writes the store |
| Auth.IssuedCaptchaPasses | src/lib/auth.ts:34-43 | a cookie issued by the captcha endpoint passes both captcha checks for every case variant of its text |
| Auth.UnknownUserRejected | src/lib/auth.ts:46-55 | an email with no record fails with "账号或密码错误" and writes nothing |
| Auth.FoundUserIsStep | src/lib/auth.ts:57-115 | once the captcha passes and the user exists, the outcome is that record's `Step`, and every other record stays as it was |
| Auth.LockedRejected | src/lib/auth.ts:58-61 | a locked account fails as locked before the password is checked (the outcome is the same under any password check), with no record change; the wait is the ceiling in minutes, at least one |
| Auth.WrongPasswordRecorded | src/lib/auth.ts:66-98 | a wrong password restarts the count at 1 when the last attempt is more than 300000 ms old and adds one otherwise; records `now`; sets the lockout to `now + 3600000` at 5 or more and keeps it otherwise; lockout error at 5 or more, else `5 - count` attempts left, in 1..4 |
| Auth.SuccessResets | src/lib/auth.ts:101-115 | a right password zeroes the count, clears both times and returns (id, email, name); applying the reset again changes nothing |
| Auth.FifthFailureLocks | src/lib/auth.ts:76-95 | a fifth failure within the window locks the account for exactly one hour |
| Auth.FailureAfterGapCountsOne | src/lib/auth.ts:76-78 | after a gap longer than five minutes a failure counts as the first and reports 4 attempts left |
| Auth.FreshConsistent | src/lib/auth.ts:102-109 | a record with zero counters satisfies the record invariant at every time |
| Auth.StepKeepsConsistent | src/lib/auth.ts:57-109 | one attempt no earlier than the last keeps the invariant: count at most 5, no attempt time in the future, and a count of 5 carries the lockout set at that failure |
| Auth.AttemptKeepsConsistent | src/lib/auth.ts:22-116 | a whole attempt keeps the invariant for every record of the store |
| Auth.ReplayKeepsConsistent | src/lib/auth.ts:22-116 | any sequence of attempts with a clock that never goes back keeps the invariant for every record |
| Auth.CounterNeverExceedsFive | src/lib/auth.ts:71-92 | if the clock never goes back between attempts, no user's failure count ever exceeds 5 |
| Auth.Decimal | src/lib/auth.ts:60 | the decimal form of a number is a non-empty string of digits, one digit long exactly below ten |
| Auth.Message | src/lib/auth.ts:24-97 | the text each error throws (`:24`, `:31`, `:38`, `:42`, `:54`, `:60`, `:95`, `:97`); no contract of its own: `Auth.MessageInjective` shows no two errors share a text |
| Auth.DecimalInjective | src/lib/auth.ts:97 | two numbers with the same decimal form are equal |
| Auth.MessageOpenings | src/lib/auth.ts:60 | the opening characters that tell the variable-length messages apart |
| Auth.MessageInjective | src/lib/auth.ts:24-97 | no two errors throw the same message, so each failure, with its wait or remaining count, shows in the text; in particular an unknown email reads differently from a wrong password |
| Gallery.IndexOf | src/components/ProductGallery.tsx:16 | `indexOf` gives the first position holding the active image, or -1 exactly when the image is absent or not in the list |
| Gallery.IndexFrom | src/components/ProductGallery.tsx:49 | the first position from a start index holding the image, or -1 exactly when none does |
| Gallery.ImageAt | src/components/ProductGallery.tsx:56 | `images[i]` is an image exactly for an index inside the list, and undefined otherwise |
| Gallery.NewIndex | src/components/ProductGallery.tsx:50-55 | one step back or forward with wrap-around; no contract of its own: `Gallery.NewIndexInRange` and `Gallery.NewIndexIsModular` state its range and its modular form |
| Gallery.Navigate | src/components/ProductGallery.tsx:48-57 | the image `navigateImage` makes active; no contract of its own: `Gallery.NavigateStaysInList`, `Gallery.NavigateAt` and `Gallery.NavigateInverse` state its properties |
| Gallery.NewIndexIsModular | src/components/ProductGallery.tsx:51-55 | from a position of the list, next is `(i + 1) mod n` and prev is `(i - 1 + n) mod n` |
| Gallery.NewIndexInRange | src/components/ProductGallery.tsx:48-56 | from any index, or from -1 for a missing image, the new index lies in `[0, n)`; from -1, next gives 0 and prev gives `n - 1` |
| Gallery.NavigateStaysInList | src/components/ProductGallery.tsx:48-57 | on a non-empty list navigation always makes one of its images active, even when the active image is not in the list; on an empty list it gives undefined |
| Gallery.SingleImageStays | src/components/ProductGallery.tsx:48-57 | with one image both directions keep it |
| Gallery.IndexOfDistinct | src/components/ProductGallery.tsx:49 | in a list without repeats `indexOf` finds an image where it stands |
| Gallery.NavigateAt | src/components/ProductGallery.tsx:48-57 | without repeats, next from position k shows image `(k + 1) mod n` and prev shows image `(k - 1 + n) mod n` |
| Gallery.NavigateInverse | src/components/ProductGallery.tsx:48-57 | without repeats, prev after next and next after prev restore the active image |
| Gallery.ForwardTimesAt | src/components/ProductGallery.tsx:53-56 | without repeats, up to n next moves from position k reach image `(k + steps) mod n` |
| Gallery.ForwardTimesWrapped | src/components/ProductGallery.tsx:53-56 | the same, with the single possible wrap written out |
| Gallery.FullCycleReturns | src/components/ProductGallery.tsx:53-56 | without repeats, n next moves return to the starting image |
| Gallery.GalleryView.constructor | src/components/ProductGallery.tsx:13-14 | the initial active image is `images[0]` (undefined for no images), with the preview closed |
| Gallery.GalleryView.Counter | src/components/ProductGallery.tsx:160 | the preview counter reads `indexOf(activeImage) + 1` out of n, which lies in 1..n and points at the active image |
| Gallery.GalleryView.NavigateImage | src/components/ProductGallery.tsx:48-67 | the active image becomes `Navigate` of the old one, the preview flag is kept, and the active image stays in the list |
| Gallery.GalleryView.HandleKeyDown | src/components/ProductGallery.tsx:20-30 | with the preview closed keys change nothing; open, Escape closes it and keeps the image, the left and right arrows go to prev and next and keep it open, and other keys change nothing |
| Gallery.GalleryView.OpenPreview | src/components/ProductGallery.tsx:83 | a click on the main image opens the preview and keeps the image |
| Gallery.GalleryView.ClosePreview | src/components/ProductGallery.tsx:148-152 | the backdrop or close button closes the preview and keeps the image |
| Gallery.GalleryView.SelectThumbnail | src/components/ProductGallery.tsx:125 | a thumbnail click makes its image active and keeps the preview flag |

## Left out

- HMAC-SHA256 and bcrypt are library calls. They are function parameters, so the model proves nothing those algorithms would guarantee, such as collision resistance.
- Captcha.VerifyOtherSecret: states only that another secret passes exactly when it gives the same tag. That different secrets give different tags is a property of HMAC, which is not modelled.
- The captcha image (`svg-captcha`: size 4, excluded characters, noise, colours, the SVG body and `Content-Type`). The challenge text is an arbitrary string. The round-trip lemmas require it to contain no `.`, which `svg-captcha`'s alphanumeric output satisfies.
- `toLowerCase` is modelled on the ASCII letters A to Z only. Unicode case mapping is not modelled.
- The cookie's five-minute expiry is enforced by the browser. An expired cookie appears in the model as an absent one.
- Prisma reads and writes go to an in-memory map keyed by the unique email. The write-back, which the source keys by `id`, goes to the same email key.
- The three clock reads at `src/lib/auth.ts:58`, `:59` and `:68` are one integer `now` in milliseconds.
- `Math.ceil` over floating-point division becomes integer ceiling division on the positive remaining milliseconds.
- Store-update failures, which the source lets escape as unhandled faults, are not modelled.
- The unguarded read-modify-write of the attempt counter under concurrent requests is not modelled. Attempts run one at a time.
- Auth.CounterNeverExceedsFive: covers stores whose records start consistent, for example fresh records (`Auth.FreshConsistent`). A record seeded from outside with a count above five is not covered.
- The NextAuth session, JWT and page configuration (`src/lib/auth.ts:119-139`) is framework glue.
- React rendering, the scroll-lock effect, registering and removing the key listener, and `stopPropagation` are not modelled. Neither are changes to the `images` prop after the first render: the images are a constant of `GalleryView`.
- The other files of the repository are not part of this model: the SM.MS upload proxy, the friend-link, product and upload-history query routes, the admin friend-link page, `HotProducts`, `layout.tsx`, the type declarations and the one-off scripts. They are request and ORM plumbing and UI.
