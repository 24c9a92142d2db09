# Customer records: validation gate, store writes, paging and search

A model of the customer controller of a small server-rendered customer
management screen (`server/controllers/customerController.js`). The
controller lists customers a page at a time, creates, edits and deletes
them, and searches them by name. The model covers the part with real
logic:

- the **create gate** (`postCustomer`). It is an ordered chain of checks, and the first failure wins:
  1. an email already in use;
  2. the name pattern `^[a-zA-Z ]+$`;
  3. the case-sensitive `@gmail.com` suffix;
  4. the "all fields truthy" test, which answers 400.

  A payload that passes all four adds exactly one record.
- the **edit gate** (`editPost`). The suffix check runs first. Then comes the conflict rule: the record found by email blocks the edit only when its id is not the edited record's. An accepted edit replaces the four editable fields.
- **delete** by id (`deleteCustomer`);
- the home page's **pagination arithmetic** (`homepage`). The page size is 12, the page defaults to 1, the offset is `12*page - 12`, and the page count is `ceil(count/12)`.
- the search handler's **term clean-up and matching** (`searchCustomers`). Every character outside `[a-zA-Z0-9 ]` is deleted. A record matches when its first or last name contains the cleaned term, ignoring case.

Files:

- `Options.dfy` defines the `Option` type.
- `Validation.dfy` holds the field predicates, the rejection reasons and their messages.
- `Search.dfy` holds the clean-up and the case-insensitive match.
- `Paging.dfy` holds the page arithmetic and a reference pagination.
- `Customers.dfy` holds the records, the store operations and the class `CustomerStore`. The class's methods are the handlers.
- `Scenarios.dfy` calls the handlers on a fresh store and proves the outcomes from their contracts.

The document database is modelled as the field `records: seq<Customer>`, kept in insertion order, plus a counter `nextId` for store-assigned ids. `findOne({ email })` returns the first record in that order with exactly that email. A handler's redirect with a flash message is modelled as its returned `Reject(reason)`. The create handler's 400 response is modelled as `BadRequest`, and the clock as a `now` parameter.

The suffix test is a literal, case-sensitive tail match. So `user@gmail.com.evil.com` is rejected, because its tail is `.evil.com`. `user@sub.gmail.com` is rejected too, because its last ten characters are `.gmail.com`. Both are proved in `Validation.SuffixExamples`.

The store does not enforce email uniqueness. The model therefore does not make it an object invariant. Instead, each write handler proves that it keeps unique emails unique (`EmailsUnique(old(records)) ==> EmailsUnique(records)`). The suffix rule is an object invariant: both writers check the suffix before they write, so every stored email ends with `@gmail.com` (`EmailsSuffixed`, part of `CustomerStore.Valid`).

## Model

| member | source | states |
|---|---|---|
| `Customers.CustomerStore.PostCustomer` | server/controllers/customerController.js:84-132 | First failing check wins. An email any stored record holds gives "email in use" whatever the other fields are. Otherwise a name outside `^[a-zA-Z ]+$` gives the name rejection. Otherwise a missing `@gmail.com` tail gives the domain rejection. Otherwise an empty telephone gives 400. Otherwise exactly one record with the four submitted fields and a fresh id is appended. Any rejection leaves the store unchanged. Unique emails stay unique. Every stored email keeps the `@gmail.com` suffix. |
| `Customers.CustomerStore.EditPost` | server/controllers/customerController.js:182-213 | The suffix check comes before the conflict check. The edit is accepted iff the email has the suffix and the record found by email is absent or is the target itself. Names and telephone do not affect the outcome. On acceptance only the record with the target id gets the four fields and the new update time; every other record is unchanged. A rejection changes nothing. Every stored email keeps the `@gmail.com` suffix. |
| `Customers.CustomerStore.DeleteCustomer` | server/controllers/customerController.js:219-226 | The new store is exactly `Without(old records, id)`: the records with another id, in their old order. The store shrinks by one iff the id was present. Unique ids and emails stay unique, and every email still has the suffix. |
| `Customers.CustomerStore.Homepage` | server/controllers/customerController.js:16-30 | A missing page means page 1. Page `p` shows `PageOf(listing, p)` of the newest-first listing: at most 12 records, all in the store, still newest first. The page count is `PageCount` of the store size. Page 0 yields no view. |
| `Customers.CustomerStore.SearchCustomers` | server/controllers/customerController.js:239-247 | A record is returned iff it is stored and its first or last name contains the cleaned term, ignoring case. The result is `MatchingRecords` of the store, so it keeps store order. |
| `Customers.FindByEmail` | server/controllers/customerController.js:89 | `findOne({ email })`: absent iff no record has the email; otherwise the first record in store order with exactly that email. |
| `Customers.BlocksEditIffOtherHolder` | server/controllers/customerController.js:193-194 | With unique emails, the conflict rule blocks an edit exactly when a record with a different id holds the submitted email. |
| `Customers.KeepingOwnEmailNeverBlocks` | server/controllers/customerController.js:193-194 | With unique emails, resubmitting a record's own email never conflicts. |
| `Customers.InsertKeepsEmailsUnique` | server/controllers/customerController.js:89-93 | Appending a record whose email no record holds keeps emails unique. |
| `Customers.EditKeepsEmailsUnique` | server/controllers/customerController.js:193-206 | An edit the conflict rule lets through keeps emails unique, given unique ids. |
| `Customers.IndexOfId` | server/controllers/customerController.js:221 | The position of the first record with the id, or the length when there is none. No earlier record has the id. |
| `Customers.DropKeepsUnique` | server/controllers/customerController.js:221 | Removing one record keeps ids unique and emails unique. |
| `Customers.RemoveByIdRemovesOnlyTarget` | server/controllers/customerController.js:221 | With unique ids, delete-by-id keeps exactly the records with another id. It removes one record iff the id is present. |
| `Customers.MatchingRecords` | server/controllers/customerController.js:242-247 | The result holds exactly the stored records whose first or last name matches the term. It is no longer than the store. |
| `Customers.PagesNewestFirst` | server/controllers/customerController.js:20-23 | Each page of a newest-first listing is newest first. A record on an earlier page is no older than one on a later page. |
| `Validation.MessagesDistinct` | server/controllers/customerController.js:91-105 | The three rejection reasons have pairwise different messages, and none of them is the 400 text "All fields are required". |
| `Validation.NameWithForeignCharRejected` | server/controllers/customerController.js:95-96 | Any character outside `[a-zA-Z ]` (a digit, punctuation, a non-ASCII letter) fails the name pattern. |
| `Validation.NamePatternEdges` | server/controllers/customerController.js:95-96 | An all-spaces name passes the pattern. The empty name fails, and so does `"A1"`. |
| `Validation.SuffixExamples` | server/controllers/customerController.js:103 | The suffix test is literal and case-sensitive. `ann@gmail.com` passes. `x@Gmail.com`, `x@sub.gmail.com`, `user@gmail.co` and `user@gmail.com.evil.com` fail. |
| `Validation.OnlyTelephoneCanBeMissing` | server/controllers/customerController.js:110-113 | Once the names match and the email has the suffix, the all-fields test fails iff the telephone is empty. |
| `Search.Sanitize` | server/controllers/customerController.js:240 | The cleaned term holds only `[a-zA-Z0-9 ]` characters. It holds no regular-expression metacharacter and is no longer than the input. |
| `Search.SanitizeAppend` | server/controllers/customerController.js:240 | Cleaning works character by character: cleaning `s + t` is cleaning `s`, then `t`, concatenated. Original order is preserved. |
| `Search.SanitizeChar` | server/controllers/customerController.js:240 | A single character is kept iff it is in `[a-zA-Z0-9 ]`. |
| `Search.SanitizeKeepsClean` | server/controllers/customerController.js:240 | A term of kept characters only is unchanged. |
| `Search.SanitizeIdempotent` | server/controllers/customerController.js:240 | Cleaning twice equals cleaning once. |
| `Search.SanitizeMembers` | server/controllers/customerController.js:240 | A character is in the cleaned term iff it is in the input and in `[a-zA-Z0-9 ]`. |
| `Search.OccurrenceMatches` | server/controllers/customerController.js:244-245 | A name containing the term verbatim matches. |
| `Search.EmptyTermMatches` | server/controllers/customerController.js:244-245 | The empty term matches every name. |
| `Search.MatchIgnoresCase` | server/controllers/customerController.js:244-245 | Terms equal up to ASCII case match the same names. |
| `Search.PunctuationOnlyTermMatchesAll` | server/controllers/customerController.js:240-246 | A term with no `[a-zA-Z0-9 ]` character cleans to the empty term, which matches every name. |
| `Paging.Skip` | server/controllers/customerController.js:21 | For page `p >= 1` the offset is `12*(p-1)`, never negative. For page 0 it is negative. |
| `Paging.PageCount` | server/controllers/customerController.js:30 | The ceiling of count/12: 0 for no records, else `12*(pages-1) < count <= 12*pages`. |
| `Paging.PageOf` | server/controllers/customerController.js:20-23 | Page `p` shows at most 12 records. Its entries are the listing's positions `[12(p-1), 12p)`, in order, and every such position present in the listing appears. |
| `Paging.PageEmptyIffPastCount` | server/controllers/customerController.js:20-30 | A page is empty iff its number exceeds the page count. |
| `Paging.PaginateCovers` | server/controllers/customerController.js:20-23 | Concatenating the reference chunks of 12 gives back the listing. |
| `Paging.PageOfDrop` | server/controllers/customerController.js:21-22 | Page `p+1` of a listing longer than 12 is page `p` of the listing without its first 12 records. |
| `Paging.PaginateAgrees` | server/controllers/customerController.js:16-30 | There are `PageCount` reference chunks, and handler page `p` is chunk `p-1`. So the pages partition the listing in order. |
| `Validation.IsValidName` | server/controllers/customerController.js:95-96 | `/^[a-zA-Z ]+$/.test(s)`: one or more characters, each an ASCII letter or a space. |
| `Validation.HasGmailSuffix` | server/controllers/customerController.js:103 | `email.endsWith('@gmail.com')`: the last ten characters are exactly `@gmail.com`. |
| `Validation.AllFieldsPresent` | server/controllers/customerController.js:110 | The negation of the handler's falsy-field test: all four strings are non-empty. |
| `Customers.BlocksEdit` | server/controllers/customerController.js:194 | The edit conflict rule: a record was found by email and its id differs from the edited id. |
| `Customers.Edited` | server/controllers/customerController.js:200-206 | The updated record keeps its id and creation time. Its four editable fields equal the payload, and its update time is `now`. |
| `Customers.ReplaceById` | server/controllers/customerController.js:200-206 | The store keeps its length and every id. Records with another id are unchanged. Records with the target id become `Edited` with the payload. |
| `Customers.RemoveById` | server/controllers/customerController.js:221 | `deleteOne({ _id })`: one record fewer iff some record has the id. Every remaining record was in the store. |
| `Customers.WithoutMembers` | server/controllers/customerController.js:221 | The reference filter `Without` keeps exactly the records whose id differs. |
| `Customers.RemoveByIdIsWithout` | server/controllers/customerController.js:221 | With unique ids, removing the first record with the id equals the in-order filter `Without`. |
| `Customers.MatchingRecordsAppend` | server/controllers/customerController.js:242-247 | Search results keep store order: the matches in `a + b` are the matches in `a` followed by the matches in `b`. |
| `Search.ContainsIgnoringCase` | server/controllers/customerController.js:244-245 | `new RegExp(term, "i")` for a metacharacter-free term: some offset where every term character equals the name's character up to ASCII case. |
| `Paging.RequestedPage` | server/controllers/customerController.js:17 | The page query with 1 as its default: an absent page gives 1, and the page is 0 only when the query gave 0. |
| `Customers.MatchesSearch` | server/controllers/customerController.js:242-246 | The `$or` filter: a record matches iff its first name or its last name contains the term, ignoring ASCII case. |
| `Validation.Message` | server/controllers/customerController.js:91-105 | The flash text for each rejection reason: "Email address is already in use", "First name and last name must be non-empty strings without numbers", "Email address must end with @gmail.com". |
| `Customers.NewestFirst` | server/controllers/customerController.js:20 | The `$sort: { createdAt: -1 }` order: every record is at least as new as every record after it. |
| `Scenarios.SubmitTwice` | server/controllers/customerController.js:89-126 | Submitting Ann Lee / ann@gmail.com twice on a fresh store: the first is accepted, the second is refused as "email in use", and one record is stored. |
| `Scenarios.DigitInName` | server/controllers/customerController.js:95-99 | First name `"A1"` is refused with the name message, and nothing is stored. |
| `Scenarios.MissingTelephone` | server/controllers/customerController.js:110-113 | An empty telephone gives the 400 answer, and nothing is stored. |
| `Scenarios.EditKeepsOwnEmail` | server/controllers/customerController.js:186-206 | Editing a record while keeping its own email is accepted. Moving another record onto that email is refused as "email in use". |
| `Scenarios.EditSkipsNameCheck` | server/controllers/customerController.js:182-206 | An edit stores the first name `"A1"`, which create would refuse. |

## Left out

- Request and response plumbing is not modelled: reading `req.body`, `res.render`, `res.redirect`, status codes beyond the 400 outcome, and the `about`, `addCustomer`, `view` and `edit` handlers, which only render.
- The flash-message queue is not modelled. Rejections carry a `Reason`, and `Validation.Message` gives its text. The success message "New customer has been added." is not modelled.
- The database calls (`findOne`, `aggregate`, `countDocuments`, `create`, `findByIdAndUpdate`, `deleteOne`, `find`) are replaced by operations on the in-memory sequence. Ids are naturals from a counter. ObjectId parsing and `toString` formatting are not modelled.
- The sort by `createdAt` is done by the database. `Customers.CustomerStore.Homepage` receives the sorted listing as a parameter, required to be a permutation of the store ordered newest first.
- The `catch` paths are not modelled: the 500 on create and the logged, swallowed errors elsewhere. They come from store faults, or from an undefined `email`, on which `endsWith` throws. The one modelled exception is page 0 on the home page. There the negative skip is refused by the store, and the view is `Failed`.
- Body fields are strings. An absent (undefined) field is not modelled. The name pattern would test it as the text "undefined".
- The page query is a natural or absent. JavaScript's coercion of non-numeric text and the floating-point `Math.ceil` are not modelled; integer ceiling division is used, which is exact for record counts.
- Timestamps are a `now` parameter. The clock is not modelled.
- Concurrent requests are not modelled. The check-then-write race on one email can leave two records with the same email.
- `Customers.BlocksEditIffOtherHolder` and `Customers.KeepingOwnEmailNeverBlocks` assume unique emails. With duplicates, `findOne` may return the target itself while another record holds the email. The edit then goes through.
- `Search.ContainsIgnoringCase`: the model folds ASCII case only. The database evaluates the `$regex` with its own engine, whose caseless Unicode matching also pairs some non-ASCII characters with ASCII letters: U+212A KELVIN SIGN matches `k`, and U+017F LONG S matches `s`. A name such as "\u212Aim" therefore matches the term "kim" in the application but not in the model. These Unicode case equivalents are not modelled, and general regular-expression semantics are not interpreted.
- The database's result order without a sort is not modelled. The model fixes it to insertion order, which MongoDB does not guarantee. This decides which record `Customers.FindByEmail` returns when two records share an email, and the display order of search results.
- `console.log` output is not modelled.
