# Fridge tracker: input validators and the user store

This project models two parts of the fridge-tracking web service's back end.

The first part is the input validators of `helpers.js`. They check that a value was given and is a non-blank string, and they trim it. On top of that they check ids, email addresses, first and last names, and passwords. Each validator either returns the trimmed value or throws an `Error` whose message names the first rule broken. The model writes each validator as a function from a JavaScript value (`Undefined`, `Null`, a string, or any other value) to `Ok(trimmed)` or `Err(message)`. The messages are the source's own text, with its spelling.

The second part is the in-memory logic of `data/users.js`:

- `insertUser` validates the sign-up fields, creates the account and stores a user with no items.
- `addItemToUser` appends an item with a fresh ObjectId to a user's `refrigeratedItems`. For a manual entry it also records a product.
- `removeItemFromUser` keeps every item whose id differs from the given one.

The MongoDB collections become the fields of a `Store` class: a map from ObjectId to user record, and a sequence of products. Fresh ObjectIds come from a counter. Every method is stated against its whole new state. Each method keeps the invariant `Store.Valid`: every id was drawn before the counter, and item ids are distinct within each user's list.

Modules:

- `Wrappers`: `Option`, `Result` and `Outcome` (a check that passes or throws).
- `JsText`: the string built-ins the validators use. `trim` is given a declarative meaning (`IsTrimOf`) with uniqueness and idempotence. `toLowerCase` is modelled on ASCII letters. Also the digit and upper-case character classes.
- `EmailPattern`: the email regular expression, both as a left-to-right scanner and as a declarative shape. A lemma proves the two agree.
- `Helpers`: the six validators of `helpers.js`.
- `Users`: the item filter, sign-up validation and the `Store` class.

Where the design description and the code disagree, the model follows the code:

- In `removeItemFromUser`, an unknown user id is not reported as "User not found". The code reads the items of the `null` that `findOne` returned, which throws a `TypeError`. The model returns that error's message (the JavaScript engine's wording) and changes nothing.
- `validateEmail` passes the untrimmed address to `validator.isEmail`, and the trimmed one to the regular expression.

## Model

| member | source | states |
|---|---|---|
| JsText.TrimStart | helpers.js:14 | The result is a suffix of the input, everything removed is whitespace, and the result does not start with whitespace. |
| JsText.TrimEnd | helpers.js:14 | The result is a prefix of the input, everything removed is whitespace, and the result does not end with whitespace. |
| JsText.Trim | helpers.js:14 | `str.trim()` yields a substring with only whitespace on either side of it, and it neither starts nor ends with whitespace. |
| JsText.TrimUnique | helpers.js:14 | Any string that is the input with whitespace removed from both ends, and that has no whitespace at its edges, equals `Trim` of the input. So the declarative meaning fixes the result. |
| JsText.TrimIdempotent | helpers.js:14 | Trimming an already trimmed string changes nothing. |
| JsText.TrimEmptyIff | helpers.js:14-15 | The trimmed string is empty exactly when the input is all whitespace. This is the "empty string" error condition. |
| JsText.ToLower | helpers.js:63 | `toLowerCase` on the ASCII letters keeps the length. `ToLowerUnchangedIff` gives the meaning the password check uses. |
| JsText.ToLowerUnchangedIff | helpers.js:63 | `password === password.toLowerCase()` holds exactly when the password has no upper-case letter. |
| EmailPattern.MatchDomainIff | helpers.js:40 | From a state whose current label is `p`, scanning the domain part accepts the rest exactly when `p` plus the rest is one or more non-empty labels joined by single dots. |
| EmailPattern.MatchLocalIff | helpers.js:40 | After a prefix of local-part characters, scanning accepts the rest exactly when the whole string has the email shape. |
| EmailPattern.SplitAfterLocalRun | helpers.js:40 | Since `@` is not a local-part character, the only possible split point is the first character after the leading run of local characters. |
| EmailPattern.AtAfterLocal | helpers.js:40 | After a non-empty local part, an `@` is the only possible split point. The string matches exactly when what follows the `@` is a domain. |
| EmailPattern.IsDomain | helpers.js:40 | The reference meaning of `[a-zA-Z0-9-]+(?:\.[a-zA-Z0-9-]+)*`: the string is one or more non-empty labels of `[a-zA-Z0-9-]` joined by single dots. `MatchDomainIff` ties the domain scanner to it. |
| EmailPattern.EmailShape | helpers.js:40 | The reference meaning of the anchored expression: a non-empty run of local-part characters (ASCII letters, digits and the punctuation the expression lists), then `@`, then a domain (`IsDomain`). `MatchesEmailRegex` is proved to agree with it. |
| EmailPattern.MatchDomain | helpers.js:40 | The scanner for the domain part. `MatchDomainIff` states what it accepts. |
| EmailPattern.MatchLocal | helpers.js:40 | The scanner for the local part and the `@`. `MatchLocalIff` states what it accepts. |
| EmailPattern.MatchesEmailRegex | helpers.js:39-41 | `email.match(validRegex)` succeeds exactly when the string has `EmailShape`: a non-empty run of local-part characters, then `@`, then dot-separated non-empty labels of `[a-zA-Z0-9-]`. |
| EmailPattern.LocalThenDomain | helpers.js:40 | A non-empty run of local characters, then `@`, then a domain, has the email shape. |
| EmailPattern.AcceptsDottedDomain | helpers.js:40 | `ab@nyu.edu` has the email shape. |
| EmailPattern.RefusesDoubledDot | helpers.js:40 | `ab@nyu..edu` does not: labels are separated by single dots. |
| EmailPattern.RefusesLeadingDot | helpers.js:40 | `ab@.edu` does not: the domain cannot start with a dot. |
| EmailPattern.RefusesEmptyLocalPart | helpers.js:40 | `@nyu.edu` does not: the local part is non-empty. |
| Helpers.IsInputProvided | helpers.js:5-8 | Fails exactly for `undefined` and `null`, with "Error: <name> not provided", where an empty name falls back to "variable". |
| Helpers.CheckIsProperString | helpers.js:10-20 | Succeeds exactly for strings that are not all whitespace. The value returned is the non-empty trim of the input. Each error path gives its message, in order: not provided, not a string, empty. |
| Helpers.CheckIsProperStringIdempotent | helpers.js:10-20 | Checking an accepted result again accepts it and returns it unchanged. |
| Helpers.ValidateId | helpers.js:22-29 | Succeeds exactly when the input is a proper string whose trim `ObjectId.isValid` accepts, and returns that trim. The errors are the string checks under the name "id", then "Invalid object Id". |
| Helpers.ValidateEmail | helpers.js:31-44 | Succeeds exactly when the input is a proper string, `validator.isEmail` accepts the untrimmed input, and the trim has the regular expression's shape. It returns the trim. The errors come in the source's order. |
| Helpers.IsProperName | helpers.js:49-54 | The reference rules for a name, on its trimmed form: no digit and 2 to 25 characters. `CheckIsProperFirstOrLastName` accepts exactly the names that meet them. |
| Helpers.CheckIsProperFirstOrLastName | helpers.js:46-56 | Succeeds exactly when the trim has no digit and 2 to 25 characters, and returns it. The digit error precedes the too-short error, which precedes the too-long error. |
| Helpers.DigitCheckPrecedesLength | helpers.js:49-52 | A one-character name that is a digit is refused for the digit, not for its length. |
| Helpers.IsStrongPassword | helpers.js:61-73 | The reference rules for a password, on its trimmed form: no space, at least 8 characters, an upper-case letter, a digit and a special character. `CheckIsProperPassword` accepts exactly the passwords that meet them. |
| Helpers.CheckIsProperPassword | helpers.js:58-76 | Succeeds exactly when the trim has no space, at least 8 characters, an upper-case letter, a digit and a special character, and returns it. The errors come in the source's order. |
| Helpers.InnerSpaceFailsAsTooShort | helpers.js:61-62 | A long password with an inner space is refused with the "at least 8 characters" message. |
| Users.Without | data/users.js:95-102 | The list the loop builds: the items whose id is not the removed one, in order. It is never longer than the input. `WithoutMembership`, `WithoutCounts` and `WithoutIsSubsequence` state what it keeps. |
| Users.WithoutMembership | data/users.js:95-102 | An item is kept by the filter exactly when it was in the list and its id differs from the removed one. |
| Users.WithoutConcat | data/users.js:97-101 | Filtering a concatenation filters each part. |
| Users.WithoutIsSubsequence | data/users.js:95-102 | The kept items are a subsequence of the original list, so their order is preserved. |
| Users.WithoutCounts | data/users.js:95-102 | An item whose id differs is kept as many times as it occurred, and an item with the removed id not at all. |
| Users.WithoutUnchangedIff | data/users.js:95-102 | The list is unchanged exactly when no item has the removed id. |
| Users.WithoutIdempotent | data/users.js:95-102 | Removing the same id twice equals removing it once. |
| Users.WithoutKeepsDistinct | data/users.js:95-102 | Filtering a list with distinct ids keeps the ids distinct. |
| Users.WithoutRemovesAtMostOne | data/users.js:95-102 | With distinct ids, the list shrinks by exactly one when some item has the id, and is unchanged otherwise. |
| Users.FilterOut | data/users.js:95-102 | The `for ... of` loop with `push` computes exactly `Without` of the list. |
| Users.ValidateSignup | data/users.js:19-22 | Sign-up validation succeeds exactly when both trimmed names are proper names, the email is a proper string that passes `isEmail` and whose trim has the email shape, and the trimmed password is strong. It keeps the four trimmed values. Otherwise the error is the one from the validator of the first field that breaks its rules, taking the fields in order first name, last name, email, password, whatever the later fields hold. |
| Users.Store.constructor | data/users.js:4 | The `users` and `products` collections start empty, and the invariant holds. |
| Users.Store.InsertUser | data/users.js:18-37 | A validation failure or an account-creation failure is the result, and nothing is stored. Otherwise it returns `signUpSuccessful: true` and adds exactly one user under a fresh id, with the validated fields and no items. Products are untouched. |
| Users.Store.InsertUserRecord | data/users.js:29-36 | Inserting a record puts it under an id not in use, with an empty item list. The invariant is kept. |
| Users.Store.AddItemToUser | data/users.js:39-87 | An unknown user gives "User not found" and nothing changes. Otherwise one item with a fresh id, distinct from every id already in the list, is appended after the existing items. A product is also recorded when the entry is manual. The updated user is returned. |
| Users.Store.RemoveItemFromUser | data/users.js:89-115 | For a known user, the item list becomes exactly the items whose id differs, in order, and the updated user is returned. Nothing else changes. An unknown user gives the runtime's null-read error and changes nothing. |

## Left out

- `helpers.js` imports `validator.isEmail` and `ObjectId.isValid` from libraries, which the model does not describe. They are parameters (`isEmail`, `isValid`). The model states which input each one receives.
- Firebase: `admin.initializeApp`, `auth.createUser` and `verifyToken` call an external service. The outcome of `createUser` is the parameter `authError`: `None` on success, or the service's error message.
- MongoDB I/O: the asynchronous `users()`/`products()` connections, `findOne`, `insertOne` and `findOneAndUpdate`. The collections are fields of `Store`. The read-modify-write of each operation is one atomic method, so two concurrent updates of the same user (where the last write wins and the other is lost) are not modelled.
- `ObjectId.createFromHexString` is not modelled: user ids are taken as already parsed. The exception it throws on a malformed hex string is therefore left out.
- ObjectId generation: `new ObjectId()` uses a timestamp, the process and a counter. The model draws ids from a counter, which gives the uniqueness the code relies on.
- Users.Store.RemoveItemFromUser: `item._id.toString() !== itemId` compares the hex text of an id with a string. The model compares ids by equality, so an `itemId` string that is not the text of any ObjectId is not represented. Such a string removes nothing in the source.
- Users.Store.InsertUser: the `createdUser.acknowledged` check is always true for the in-memory store. The path where the source returns `undefined` is therefore not modelled.
- Users.Store.AddItemToUser: `manualEntry` is a boolean. The source tests any JavaScript value for truthiness.
- Users.Item: `code`, `name`, `brand`, `category`, `quantity` and `expirationDate` come unchecked from the request body. `addItemToUser` stores them as given, whatever their JavaScript type. The model types all six as strings.
- Users.Store.AddItemToUser: the product record stores only code, name, brand and category. The identifier MongoDB gives it is not modelled.
- Helpers.CheckIsProperFirstOrLastName: lengths count Unicode characters. JavaScript's `length` counts UTF-16 code units, so a name using characters outside the Basic Multilingual Plane has a smaller length in the model.
- Helpers.CheckIsProperPassword: lengths count Unicode characters rather than UTF-16 code units, as for names. Upper-case detection through `toLowerCase` is restricted to the ASCII letters, so a password whose only upper-case letter is non-ASCII (such as `É`) is refused by the model and accepted by the source.
- `config/mongoCollections.js` is not part of this model: it only opens the collections.
- The routes in `routes/userRoutes.js` read the wrong request fields. `req.params.id` is read instead of `userId`, `req.param.itemId` instead of `req.params.itemId`, and the remove route path lacks a leading `/`. The routes are not part of this model, and these defects sit outside the modelled core.
- `data/qrCodes.js` (the product lookup), the Express routes, `app.js` and the configuration files are not part of this model. They are request plumbing around the modelled core.
- The recipe and KPI prompt composition, the response interpretation and the chat orchestration of the design are not part of this model, since no modelled source file implements them.
