# Yobo API core in Dafny

A model of three parts of the Yobo blog API:

- **Slug generator.** `SlugHelper.ToSlug` turns a post title into the URL fragment stored as the post's slug. The steps are:
  1. invariant lower-casing and a trim;
  2. the Turkish-letter substitution table (twelve `Replace` calls);
  3. deletion of everything outside `[a-z0-9\s-]`;
  4. whitespace runs become `-`;
  5. hyphens are trimmed from both ends;
  6. hyphen runs collapse to one.
- **Authentication controller.** `AuthController` covers:
  - `Register`, which checks for a known e-mail, calls Identity's `CreateAsync` and issues a token;
  - `Login`, which looks the user up, checks the password and issues a token;
  - the token issuer `GeneretaToken`, which builds the claims and the expiry.
- **Blog request and response records.** These are `BlogCreateRequest`, `BlogUpdateRequest` and `BlogResponse`, with the validation their `[Required]` and `[MaxLength(180)]` attributes impose and the `IsPublished = true` default.

Files:

- `Wrappers.dfy`: `Option`.
- `TextChars.dfy`: character classes shared by the modules. It has the .NET whitespace set, which is used by `\s`, `Trim()` and `IsNullOrWhiteSpace`, and the UTF-16 length of a string.
- `SlugHelper.dfy`: the pipeline, one function per rewrite in the source's order, plus the output-shape proof.
- `SlugProperties.dfy`: idempotence, deletion, separator collapsing, letter folding and emptiness.
- `Identity.dfy`: the user record and the Identity user store, modelled as a class holding a map. `Create` changes the map in place.
- `Auth.dfy`: the request and response records, `GeneretaToken`, and the `AuthController` class with its `Register` and `Login` methods.
- `BlogDtos.dfy`: the blog records, their validation and their defaults.

Modelling choices:

- **Time.** Instants are integer seconds. `AppUser.CreatedAt` uses the local clock and the token uses the UTC clock, so `Register` takes both as parameters.
- **New user id.** The GUID `IdentityUser` assigns to a new user is a parameter, required to be unused.
- **Password salt.** The random salt the password hasher draws is a parameter of `Register` and `Create`.
- **User store.** The store is keyed by the normalised e-mail. Every user that `Register` creates has its user name equal to its e-mail, so the key is also the normalised user name; `UserManager.Valid()` states this.
- **Library code.** Normalisation, password hashing, the password validators, the user-name character rule and `CheckPasswordSignInAsync` are function-valued constants.

## Model

| member | source | states |
|---|---|---|
| SlugHelper.ToSlug | YoboApi/Utils/SlugHelper.cs:7-24 | Every result is a slug: only `a`-`z`, `0`-`9` and `-`, never a hyphen first or last, never two hyphens in a row. The body chains the step functions in source order: `LowerInvariant` (per character `ToLowerInvariant`) and `Trim` for line 9, `ReplaceTurkishLetters` for lines 11-17, `StripDisallowed` for line 19, `ReplaceRuns` and `Trim` for line 20, `ReplaceRuns` for line 21 (the last three together are `Hyphenate`); their properties are the lemma rows below |
| SlugHelper.HyphenateIsSlug | YoboApi/Utils/SlugHelper.cs:20-21 | Given only kept characters, the whitespace rewrite, the hyphen trim and the hyphen collapse together yield the slug shape |
| SlugHelper.FilterChars | YoboApi/Utils/SlugHelper.cs:19 | After deletion, every remaining character was in the input and is in `[a-z0-9\s-]` |
| SlugHelper.TrimEnds | YoboApi/Utils/SlugHelper.cs:20 | A trimmed string has no trimmed character at either end and only characters of the original |
| SlugHelper.RunsChars | YoboApi/Utils/SlugHelper.cs:20-21 | A run rewrite outputs only `-` and characters of the input outside the run class |
| SlugHelper.RunsKeepEnds | YoboApi/Utils/SlugHelper.cs:20-21 | A character outside the run class at either end of the input stays at that end |
| SlugHelper.HyphenRunsCollapse | YoboApi/Utils/SlugHelper.cs:21 | After `-+` becomes `-`, no two hyphens are adjacent |
| SlugHelper.ReplaceCharAt | YoboApi/Utils/SlugHelper.cs:12-17 | One `Replace` changes exactly the occurrences of its first character, position by position |
| SlugHelper.MapCharsAt | YoboApi/Utils/SlugHelper.cs:9 | `ToLowerInvariant` on a string lowers each character in place |
| SlugProperties.ReplaceTurkishLettersIsTable | YoboApi/Utils/SlugHelper.cs:11-17 | The twelve chained replacements act as one per-character table: ş/Ş→s, ı/İ→i, ğ/Ğ→g, ü/Ü→u, ö/Ö→o, ç/Ç→c |
| SlugProperties.LowerThenTable | YoboApi/Utils/SlugHelper.cs:9-17 | Lowering and then the table is the per-character map `Fold` |
| SlugProperties.InitialTrimIsRedundant | YoboApi/Utils/SlugHelper.cs:9-20 | The `Trim()` on line 9 never changes the result: the slug equals the pipeline run without it |
| SlugProperties.HyphenateIgnoresOuterSpaces | YoboApi/Utils/SlugHelper.cs:20 | Whitespace at either end of the filtered text does not reach the slug |
| SlugProperties.TrimSplit | YoboApi/Utils/SlugHelper.cs:9-20 | A trim removes only a prefix and a suffix made of the trimmed class |
| SlugProperties.RunsSplit | YoboApi/Utils/SlugHelper.cs:20-21 | The run rewrite of a concatenation is the rewrite of each part, the second continuing the first's run |
| SlugProperties.WholeRunCollapses | YoboApi/Utils/SlugHelper.cs:20-21 | A non-empty run becomes exactly one `-`, or nothing when it continues a run |
| SlugProperties.CollapseUnchanged | YoboApi/Utils/SlugHelper.cs:21 | Text without `--` passes the hyphen collapse unchanged |
| SlugProperties.KeptTextSkipsToRuns | YoboApi/Utils/SlugHelper.cs:9-19 | Lower-case kept text with no whitespace at its ends passes lowering, trim, table and deletion unchanged |
| SlugProperties.SlugIsFixedPoint | YoboApi/Utils/SlugHelper.cs:9-21 | Every string of the slug shape is its own slug |
| SlugProperties.ToSlugIsIdempotent | YoboApi/Utils/SlugHelper.cs:7-24 | `ToSlug(ToSlug(x)) == ToSlug(x)` for every input |
| SlugProperties.FoldDeletes | YoboApi/Utils/SlugHelper.cs:19 | A character folded outside `[a-z0-9\s-]` vanishes from the filtered text |
| SlugProperties.DisallowedCharIsDeleted | YoboApi/Utils/SlugHelper.cs:19 | Inserting a character that lowering and the table send outside `[a-z0-9\s-]` anywhere in the input leaves the slug unchanged: it is deleted, not turned into a hyphen |
| SlugProperties.PunctuationJoinsWords | YoboApi/Utils/SlugHelper.cs:19 | For words of letters and digits `a` and `b`, `a + "!" + b` gives `a + b`, as "a!b" gives "ab" |
| SlugProperties.SpacesPass | YoboApi/Utils/SlugHelper.cs:20 | Between words, each stretch of whitespace and hyphens becomes hyphens only, and the words are untouched |
| SlugProperties.HyphensPass | YoboApi/Utils/SlugHelper.cs:21 | Between words, each all-hyphen stretch becomes one `-` |
| SlugProperties.WordsJoinedByOneHyphen | YoboApi/Utils/SlugHelper.cs:20-21 | Words separated by any non-empty mix of whitespace and hyphens come out joined by exactly one `-` |
| SlugProperties.CommentExample | YoboApi/Utils/SlugHelper.cs:27-30 | `ToSlug("ben ahmet - kaya") == "ben-ahmet-kaya"` |
| SlugProperties.LettersAreFolded | YoboApi/Utils/SlugHelper.cs:9-17 | Text of ASCII letters, digits and the table's Turkish letters comes out as its lower-cased, transliterated form, one character for one |
| SlugProperties.AlphaNumericsSurvive | YoboApi/Utils/SlugHelper.cs:9-21 | The letters and digits of the slug are exactly those of the folded input, in order |
| SlugProperties.SlugEmptyIff | YoboApi/Utils/SlugHelper.cs:19-21 | The slug is empty exactly when the folded input has no letter or digit |
| TextChars.Utf16Length | YoboApi/Dtos/BlogDtos.cs:7 | The length `MaxLength` measures lies between the character count and twice it, and equals the count exactly when no character needs a surrogate pair |
| Identity.UserManager.FindByEmail | YoboApi/Controllers/AuthController.cs:30 | Finds a user exactly when the normalised e-mail is stored; the user found has that normalised e-mail |
| Identity.UserManager.UserErrors | YoboApi/Controllers/AuthController.cs:41 | The user validator passes exactly when the user name is present, not blank, allowed, and owned by no other user |
| Identity.UserManager.Create | YoboApi/Controllers/AuthController.cs:41 | Password errors end the call with those errors; then user errors do the same; otherwise the user is stored under a fresh key with the hash of the password and the call's salt. The store invariant is kept |
| Auth.GeneretaToken | YoboApi/Controllers/AuthController.cs:65-97 | `sub` and NameIdentifier read back as the user id, email as `Email ?? ""` and name as `UserName ?? Email ?? ""`. The token expiry and the response's ExpiresAt are both `ExpiryMinutes` after now, in whole seconds. The response echoes the e-mail and FullName |
| Auth.TokenSubjectIdentifiesUser | YoboApi/Controllers/AuthController.cs:72-78 | Two tokens carry the same subject exactly when they were issued for the same user id |
| Auth.TokenExpiresAfterIssue | YoboApi/Controllers/AuthController.cs:80 | The expiry is not before issue exactly when the configured minutes are not negative |
| Auth.NewUser | YoboApi/Controllers/AuthController.cs:34-39 | A registered user's UserName and Email are the request e-mail and FullName is the request's |
| Auth.RegisteredTokenNamesEmail | YoboApi/Controllers/AuthController.cs:34-78 | For a user built by `Register`, the name claim and the email claim both carry the request e-mail |
| Auth.Descriptions | YoboApi/Controllers/AuthController.cs:43 | The error list has one entry per Identity error, in order, each that error's description |
| Auth.AuthController.Register | YoboApi/Controllers/AuthController.cs:27-48 | A known e-mail gives Conflict with the store unchanged. A failed creation gives BadRequest with every error description in order (`Descriptions`) and the store unchanged. Success gives Ok with the new user's token and stores exactly that user, hashed with the call's salt. The store changes exactly when the answer is Ok |
| Auth.DuplicateNameUnreachable | YoboApi/Controllers/AuthController.cs:30-41 | Once `Register` has found no user with the e-mail, `CreateAsync` can only report an invalid user name, never a duplicate one |
| Auth.RegisterSameEmailTwice | YoboApi/Controllers/AuthController.cs:30-41 | Registering one e-mail twice: if the first succeeds the second is Conflict, and at most the one key is added |
| Auth.AuthController.Login | YoboApi/Controllers/AuthController.cs:50-63 | An unknown e-mail gives Unauthorized "Kullanıcı Bulunamadı". A wrong password gives Unauthorized "E-posta veya Şifre Hatalı.". Otherwise the answer is Ok with the stored user's token. The store is not modified (a re-hash on success is left out) |
| Auth.LoginMessagesDiffer | YoboApi/Controllers/AuthController.cs:55-59 | The unknown-user and wrong-password answers differ |
| BlogDtos.FieldErrors | YoboApi/Dtos/BlogDtos.cs:7-10 | No error exactly when Title is present, not blank and at most 180 UTF-16 units, and Content is present and not blank. Each attribute's default message appears exactly when its rule fails |
| BlogDtos.CreateErrors | YoboApi/Dtos/BlogDtos.cs:5-12 | A create request has no errors exactly when it is valid |
| BlogDtos.UpdateErrors | YoboApi/Dtos/BlogDtos.cs:14-21 | An update request has no errors exactly when it is valid |
| BlogDtos.UpdateRulesMatchCreate | YoboApi/Dtos/BlogDtos.cs:14-21 | An update request gets the same errors, and the same verdict, as a create request with the same fields |
| BlogDtos.PublishedFlagIsFree | YoboApi/Dtos/BlogDtos.cs:11 | IsPublished never changes the errors |
| BlogDtos.ContentLengthIsUnbounded | YoboApi/Dtos/BlogDtos.cs:9-10 | Content with a non-blank character stays valid whatever is appended to it |
| BlogDtos.BlankTitleIsMissing | YoboApi/Dtos/BlogDtos.cs:7-8 | A whitespace-only title is reported as required |
| BlogDtos.TitleLimitInCharacters | YoboApi/Dtos/BlogDtos.cs:7 | 90 characters always fit, more than 180 never do, and without surrogate pairs the limit is exactly 180 characters |
| BlogDtos.AstralTitleTooLong | YoboApi/Dtos/BlogDtos.cs:7 | 91 characters outside the Basic Multilingual Plane exceed the limit |
| BlogDtos.DefaultCreate | YoboApi/Dtos/BlogDtos.cs:5-12 | A fresh create request has IsPublished true and is invalid, since Title and Content are unset |
| BlogDtos.DefaultUpdate | YoboApi/Dtos/BlogDtos.cs:14-21 | A fresh update request has IsPublished true and is invalid |
| BlogDtos.BindCreate | YoboApi/Dtos/BlogDtos.cs:11 | An omitted IsPublished binds as true; a given one is kept |
| BlogDtos.BindUpdate | YoboApi/Dtos/BlogDtos.cs:20 | An omitted IsPublished binds as true; a given one is kept |

## Left out

- Password hashing and verification, Identity's normalisation and the configured validators are library code. They appear as function-valued constants with no properties assumed about their values.
- `Identity.UserManager.Create`: `PasswordHasher.HashPassword` draws a fresh random salt on every call. The model takes that salt as a parameter of `Create` and `Register` and hashes the password with it, so the exact stored hash the ensures name is the hash for the given salt; the random draw itself is not modelled.
- `Identity.UserManager.FindByEmail`: one `normalize` constant stands for both `NormalizeEmail` and `NormalizeName`. With the default `UpperInvariantLookupNormalizer` both upper-case invariantly, so they are the same function.
- JWT signing (HMAC-SHA256 with the configured key) and serialisation by `JwtSecurityTokenHandler.WriteToken` are left out. The response carries the token's content: issuer, audience, claims and expiry. The `Key` setting is carried but unused.
- Reading the `JwtSettings` configuration section is not modelled; the settings are a record. Its issuer field is whatever is stored under the misspelt key "Isuser".
- `Auth.AuthController.Register`: a misconfigured `JwtSettings` makes `GeneretaToken` throw after `CreateAsync` has already stored the user. The causes are a null `Key` (`AuthController.cs:69`), a key too short for HS256 at `WriteToken` (`:92`), and a missing or unparsable `ExpiryMinutes` (`:80`). The source then answers 500 with the user stored but no token issued. The model assumes a valid configuration, under which the store changes exactly when the answer is Ok.
- `double.Parse` of `ExpiryMinutes`: the minutes are an integer, so fractional minutes and unparsable or missing settings, which throw in the source, are not modelled.
- Clocks (`DateTime.UtcNow`, `DateTime.Now`) and the GUID of a new user are parameters.
- `Auth.GeneretaToken`: instants are whole seconds. In the source the JWT `exp` claim is written in whole seconds, while the response's `ExpiresAt` keeps the sub-second ticks of `DateTime.UtcNow`; the two can differ by up to one second, which the model does not capture.
- `async`/`await` becomes sequential calls. Concurrent registrations racing on one e-mail, which the database's unique user-name index would settle, are not modelled.
- The store is keyed by normalised e-mail. Identity keys it by id, and its e-mail uniqueness check under `RequireUniqueEmail` is off by default, so it is not modelled.
- Exceptions are not modelled. These are: a null e-mail, which `FindByEmailAsync` rejects with an exception in both actions (`AuthController.cs:30`, `:53`); a null password, which makes `CreateAsync` (`:41`) and `CheckPasswordSignInAsync` (`:57`) throw; and storage failures inside `CreateAsync`.
- `Auth.AuthController.Login`: `CheckPasswordSignInAsync` also refuses locked-out or unconfirmed users. That refusal is folded into the `checkPassword` constant.
- `Auth.AuthController.Login`: on a successful check whose stored hash is in an older format or uses fewer iterations (`SuccessRehashNeeded`), Identity re-hashes the password and persists the new hash and a new security stamp. The hash is abstract here, so this write is left out and `Login` modifies nothing; only the failure paths are unchanged in the source too (`lockoutOnFailure: false`).
- `SlugHelper.ToLowerInvariant` models lowering only for characters whose lower-case form can survive the deletion step: ASCII capitals, the five Turkish capitals of the table, and the Kelvin sign. Every other character is left unchanged because the deletion removes it and its lower-case form alike. U+0130 is left unchanged, as invariant casing does.
- `Auth.AuthController.Login`: an unknown e-mail and a wrong password get different messages, so a caller can tell which e-mails are registered; the model keeps both (`Auth.LoginMessagesDiffer`).
- The request records `RegisterRequest`, `LoginRequest` and `AuthResponse` are declared outside the files modelled here. Their fields are inferred from their use in the controller.
- `BlogResponse` is declared as a record only; no operation builds it here. The blog controller, the content service and the slug collision handling are not part of this model.
- JSON binding failures are not modelled: a wrong JSON type for a field, and a JSON `null` for the non-nullable `IsPublished`, which the source answers with 400. An absent or null `Title` or `Content` is `None`; `None` for `IsPublished` means only that the field was omitted.
- The React client is not part of this model, and the EF Core index configuration is declarative only.
