# text-service: text resolution, modelled in Dafny

text-service answers two questions for a client application: which text is
shown for a key in a language (`GET /v1/texts/key/:key`, go/cmd/main.go:29), and which texts
belong to a named group, such as every string of one screen
(`GET /v1/texts/group/:groupId`, go/cmd/main.go:30). Both answers are a map from text key to
translated value. The service refuses languages it does not support, and it
separates "not found" (404) from storage failure (500).

The model covers the Go resolution path end to end:

- the HTTP handlers, with their guard for a missing language;
- the getter, which checks the language, looks the texts up and folds them
  into a map;
- the three repositories, over an in-memory database of the service's four
  tables. Failures can be injected into that database;
- the test fixture of the controller tests, built by the repositories'
  own `Save` operations, and each test scenario stated as a lemma against it.

It also models the Python prototype's resolver. That resolver treats groups
differently: a missing group is a 404, while an existing group with no text
in the language is an empty answer. The Go getter answers 404 in both cases.

Files:

| file | contents |
|---|---|
| `wrappers.dfy` | `Option` and `Result` |
| `models.dfy` | `Language`, `TranslatedText`, `TextGroup` and the `Texts` map |
| `httputil.dfy` | the HTTP error kinds and their status codes |
| `context.dfy` | the request context: request id and language |
| `repository.dfy` | the database tables (`Db`), injected faults, repository errors |
| `language_repository.dfy`, `text_repository.dfy`, `group_repository.dfy` | the three repositories |
| `text_getter.dfy` | the getter (`Service`) and its properties relating answers to stored rows (`ServiceProperties`) |
| `controller.dfy` | the two HTTP handlers |
| `controller_test.dfy` | the test fixture and the controller-test scenarios |
| `python_text_service.dfy` | the Python resolver |

Each repository holds a `fault`:

- `Healthy`: every statement succeeds.
- `Unreachable`: every statement fails.
- `BadRow`: queries run, but scanning a returned row fails. A query that
  returns no rows still reports `ErrNotFound`, as Go's `QueryRow` does.

The group repository also holds an `interruption`: the connection may drop
after a given number of the group query's rows have been read.

The model assumes that `language.id`, `text_group.id`, `(key, language)` and
`(text_key, group_id)` are unique, so an insert that repeats one of them is
rejected. `Db.Valid()` says that `(key, language)` is unique in
`translated_text`, and every repository insert states in its contract that it
preserves it. Both
handlers answer `No language specified` when the request carries no
language (go/cmd/controller.go:19, 37).

## Model

| member | source | states |
|---|---|---|
| LanguageRepository.LanguageRepo.Find | go/pkg/repository/language_repository.go:37-53 | succeeds exactly when the store is healthy and the language id is registered, returning its row; `ErrNotFound` exactly when the store is reachable and the id is absent; any other failure wraps the cause with "Failed to query language. language=<id>" |
| LanguageRepository.LanguageRepo.Save | go/pkg/repository/language_repository.go:55-65 | registers the id with creation time `now` unless the store is unreachable or the id exists (wrapped "Failed to insert language" error); other tables unchanged; afterwards `Find` returns the new row |
| TextRepository.FirstMatch | go/pkg/repository/text_repository.go:29-45 | the row a `(key, language)` query scans is a stored row with that key and language, and there is none exactly when no row matches |
| TextRepository.FirstMatchIsTheRow | go/pkg/repository/text_repository.go:29-45 | with unique `(key, language)` pairs, the lookup of a row's pair returns that row |
| TextRepository.FirstMatchAppend | go/pkg/repository/text_repository.go:47-59 | appending a row leaves every existing lookup as it was, and makes the new row the answer for its pair only when the pair was absent |
| TextRepository.TextRepo.Find | go/pkg/repository/text_repository.go:31-45 | succeeds exactly when the store is healthy and a row with the key and language exists, returning a stored row with that pair; `ErrNotFound` exactly when reachable and there is none; otherwise wraps "Failed to query translated_text: <language>" |
| TextRepository.TextRepo.Save | go/pkg/repository/text_repository.go:47-59 | appends the row with `created_at = updated_at = now` and the next value of the id sequence, which every insert reaching the database draws, unless the store is unreachable or the pair exists ("Failed to insert translated_text: key=<key>"); keeps pairs unique; other tables unchanged; afterwards `Find` returns the saved value |
| GroupRepository.JoinSelects | go/pkg/repository/group_repository.go:30-34 | the join returns exactly the rows in the language whose key is a member of the group, and no more rows than the table has |
| GroupRepository.JoinKeysDistinct | go/pkg/repository/group_repository.go:30-34 | with unique `(key, language)` pairs, the rows of one language's join carry pairwise distinct keys |
| GroupRepository.GroupRepo.Delivered | go/pkg/repository/group_repository.go:46-53 | the rows the iterator delivers are a prefix of the join: all of it, or exactly the rows before the connection drops |
| GroupRepository.GroupRepo.TextsAsWritten | go/pkg/repository/group_repository.go:36-56 | as written: an unreachable store gives the "Failed to query group texts" error; a failing scan of a delivered row gives the "Failed to scan text" error and no list; otherwise the delivered rows, the whole join unless the read was cut short; a healthy store always succeeds, so a dropped read returns the rows read so far with no error |
| GroupRepository.GroupRepo.FindTexts | go/pkg/repository/group_repository.go:36-56 | the scanning loop, which stops when the iterator does and never checks its error, returns what `TextsAsWritten` specifies |
| GroupRepository.GroupRepo.Texts | go/pkg/repository/group_repository.go:36-56 | corrected: on success, exactly the joined rows; with no matching row, an empty list and not an error, whether or not the group exists; an unreachable store gives the "Failed to query group texts" error; a failing scan of a delivered row gives the "Failed to scan text" error and no list; a dropped read on a healthy store is a wrapped error; a failure only on an unhealthy store or a dropped read |
| GroupRepository.GroupRepo.FindTextsChecked | go/pkg/repository/group_repository.go:36-56 | the same loop with the iterator's error checked at its end returns what `Texts` specifies: all joined rows in order, or an error and no partial list |
| GroupRepository.GroupRepo.Save | go/pkg/repository/group_repository.go:58-68 | inserts the group id with time `now` unless unreachable or already present ("Failed to save group. id=<id>"); other tables unchanged |
| GroupRepository.GroupRepo.AddTextToGroup | go/pkg/repository/group_repository.go:70-80 | adds the `(textKey, groupId)` membership unless unreachable or already present (wrapped "Failed to add text to group" error); other tables unchanged |
| Service.TextsMapKeys | go/pkg/service/text_getter.go:96-103 | the keys of the folded map are exactly the keys of the texts |
| Service.TextsMapValues | go/pkg/service/text_getter.go:96-103 | every value of the map is the value of some text with that key |
| Service.TextsMapSize | go/pkg/service/text_getter.go:96-103 | the map has at most as many entries as there are texts |
| Service.TextsMapLastWins | go/pkg/service/text_getter.go:96-103 | a key maps to the value of the last text carrying it |
| Service.TextsMapSingle | go/pkg/service/text_getter.go:96-103 | one text folds into the single entry `{key: value}` |
| Service.TextsMapOrderFree | go/pkg/service/text_getter.go:96-103 | when no two texts share a key, any permutation of the texts folds into the same map |
| Service.MapTextsToMap | go/pkg/service/text_getter.go:96-103 | the loop builds the fold of the texts, whose keys are the texts' keys |
| Service.Getter.AssertLanguageExists | go/pkg/service/text_getter.go:80-94 | no error exactly when the language repository is healthy and the language is registered; a 400 "Unsupported language: <lang>" exactly when it is reachable and the language is absent; otherwise 500 |
| Service.Getter.Get | go/pkg/service/text_getter.go:39-56 | a language error is returned first; success exactly when the language passes and a text exists for the key in that language, answering one entry under the key whose value is stored; 404 exactly when reachable and no text exists; otherwise 500 |
| Service.Getter.GetGroup | go/pkg/service/text_getter.go:58-78 | a language error is returned first; success exactly when the store is healthy, the read is not cut short and some member of the group has a text in the language; the answer's keys are exactly those members, each value stored for it; 404 exactly when reachable and no member has a text, whether the group is missing or empty; 500 when the store fails or the read is cut short |
| Service.GroupAnswer | go/pkg/service/text_getter.go:66-77 | a failed lookup answers 500, an empty list answers 404, and any other list answers the `mapTextsToMap` fold of the rows, `TextsMap`, whose keys are exactly the rows' keys and whose entry for each key is the value of the last row with it (`TextsMapLastWins`) |
| ServiceProperties.GetReturnsStoredValue | go/pkg/service/text_getter.go:39-56 | with unique pairs, a key lookup answers exactly `{key: stored value}` |
| ServiceProperties.GetGroupReturnsStoredValues | go/pkg/service/text_getter.go:58-78 | with unique pairs, a member with a text in the language appears in the group answer with its stored value |
| ServiceProperties.GetGroupOrderFree | go/pkg/service/text_getter.go:58-78 | with unique pairs, the group answer is the same whatever order the database returns the join's rows in |
| ServiceProperties.InterruptedReadAsWritten | go/pkg/service/text_getter.go:66-77 | when the connection drops after `n` of the join's rows, the as-written lookup succeeds with only those `n` rows; the getter's handling of it then answers 404 although the group has texts (`n = 0`), or a 200 that lacks the member of row `n` (`n > 0`) |
| ServiceProperties.LanguageRejectedFirst | go/pkg/service/text_getter.go:39-64 | once the language is rejected, neither answer depends on the text or group store |
| Controller.CreateContext | go/cmd/controller.go:50-55 | the context carries the request id and the request's locale |
| Controller.GetTextByKey | go/cmd/controller.go:14-30 | an empty locale is 400 "No language specified"; otherwise 200 with the getter's map when it succeeds, else the getter's error unchanged |
| Controller.GetTextGroup | go/cmd/controller.go:32-48 | the same guard and pass-through for the group lookup |
| Controller.EmptyLanguageIgnoresGetter | go/cmd/controller.go:18-21 | without a locale, both handlers answer 400 whatever getter they hold |
| ControllerTests.CreateTestEnv | go/cmd/controller_test.go:156-199 | the thirteen saves of the fixture all succeed and leave exactly the fixture tables, with unique pairs |
| ControllerTests.TestGetTextOK | go/cmd/controller_test.go:22-55 | TEST_TEXT_KEY answers its Swedish and its English value |
| ControllerTests.TestGetTextFail | go/cmd/controller_test.go:57-84 | no language and "xy" are 400; ONLY_SV_TEXT_KEY in English is 404 |
| ControllerTests.TestGetTextsByGroupOKSwedish | go/cmd/controller_test.go:86-125 | MOBILE_APP in Swedish answers all three member texts |
| ControllerTests.TestGetTextsByGroupOKEnglish | go/cmd/controller_test.go:86-125 | MOBILE_APP in English answers the two members with English texts and leaves the Swedish-only one out |
| ControllerTests.TestGetTextsByGroupFail | go/cmd/controller_test.go:127-154 | no language and "xy" are 400; a group that does not exist is 404 |
| TextService.AssertLanguageSupport | python/flask/app/service/text_service.py:39-44 | passes exactly when the language is supported; otherwise BadRequestError "Unsupported language: <lang>" |
| TextService.AssertGroup | python/flask/app/service/text_service.py:31-36 | returns the group's member keys exactly when it exists; otherwise NotFoundError "No such group: <id>" |
| TextService.FindByKey | python/flask/app/service/text_service.py:16-18 | finds a stored text with the key and language, and none exactly when no such text exists |
| TextService.FindByKeys | python/flask/app/service/text_service.py:26-27 | exactly the stored texts in the language whose key is among the given keys |
| TextService.DictOfKeys | python/flask/app/service/text_service.py:28 | the dict comprehension's keys are exactly the texts' keys |
| TextService.DictOfLastWins | python/flask/app/service/text_service.py:28 | a key maps to the value of the last text carrying it |
| TextService.DictOfValues | python/flask/app/service/text_service.py:28 | every dict value is the value of some text with that key |
| TextService.GetTextByKey | python/flask/app/service/text_service.py:13-19 | an unsupported language is a BadRequestError; success exactly when the language is supported and a text exists, answering one entry whose value is stored; NotFoundError without a message exactly when supported and none exists |
| TextService.GetTextByGroup | python/flask/app/service/text_service.py:22-28 | the language is checked before the group; a missing group is NotFoundError "No such group: <id>"; otherwise success, whose keys are exactly the members with a text in the language, each value stored for it |
| TextService.EmptyGroupIsEmptyAnswer | python/flask/app/service/text_service.py:22-28 | an existing group without texts in the language answers an empty dict, not an error |
| TextService.GetTextByKeyReturnsStoredValue | python/flask/app/service/text_service.py:13-19 | with one text per pair, a key lookup answers exactly `{key: stored value}` |

## Left out

- Logging (`log.Debugw` and friends), metrics, tracing decorators, request-id generation and process bootstrap: these are side effects with no bearing on answers.
- The standard-library cancellation context threaded through each store call. A cancelled insert or single-row lookup fails with an error, and the `Unreachable` fault covers it. For the group query, a cancellation or dropped connection after the query has started is the `interruption`: as written it ends the read loop with no error (see Findings).
- Service.Getter.GetGroup: reads the group through the corrected lookup `GroupRepo.Texts`, so a dropped read is a 500. As written it is a 200 with a partial map, or a 404, as `InterruptedReadAsWritten` states.
- Wall-clock time: `time.Now()` becomes a `now` parameter of every save. The fixture uses one `now` for all rows.
- The zero-valued record returned next to an error by `Find`: callers never read it, so the model returns only the error.
- `created_at` of `text_group_membership` rows: nothing reads it.
- The order of SQL join rows, which SQL leaves unspecified: the model returns them in `translated_text` insertion order. The answer is a map, and with unique pairs the order does not change it, as `ServiceProperties.GetGroupOrderFree` states.
- Foreign keys are not modelled: `AddTextToGroup` accepts a group id with no `text_group` row, and a key with no `translated_text` row.
- TextRepository.TextRepo.Save: the schema that assigns `translated_text.id` is not part of this model. The source never sets or reads the id. The model assumes a sequence that every insert reaching the database advances, even one then rejected, as a Postgres serial column does (Postgres is the default storage, go/cmd/environment.go:54, 78-79).
- TextService.FindByKey, TextService.FindByKeys, TextService.AssertGroup: the Python repository module is not part of this model. Its lookups are modelled as first-match, in-order filter and map lookup over the store, and the group's members are assumed to be known in full when the group is found.
- TextService: the Python model's store has no injected failures, because the Python service has no error branch of its own for them. A database exception propagates out of it unchanged.
- JSON encoding and gin's error middleware: a handler's answer is modelled as `Json(status, map)` or `Failed(error)`, with `StatusCode` mapping each error to its status.

## Findings

| source | as written | input that shows it | evidently intended | confidence | as-written member | corrected member |
|---|---|---|---|---|---|---|
| go/pkg/repository/group_repository.go:46-55 | the loop ends when `rows.Next()` returns false and returns the rows read so far with a nil error; `rows.Err()` is never checked | a healthy store whose connection drops after 1 of the 2 English rows of MOBILE_APP: `FindTexts` returns one row and no error, and the getter as written answers 200 with one entry; a drop before the first row gives 404 | a read that ends in an error is reported as one, and `GetGroup` answers 500 | medium, not executed | ServiceProperties.InterruptedReadAsWritten | GroupRepository.GroupRepo.FindTextsChecked |
